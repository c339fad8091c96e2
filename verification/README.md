# A verified model of the five-stage RISC-V core

The repository holds one machine twice: as circuits in `design/` and as an independent
simulator and tool chain in `sim/tools/`. This project models the hardest parts of both and
proves that they agree, or that a circuit refines a short mathematical definition, on every
input and over every run.

| area | modules | main theorems |
|---|---|---|
| float arithmetic | `Powers`, `Float32`, `IssFloat`, `IssRounding`, `Sticky`, `FpRound`, `AlignAdd`, `FloatUnits`, `Restoring`, `FloatDivider`, `FloatSqrt` | add, sub, mul, fused multiply-add, divide and square root return the exact real result rounded once, for all operands and modes; rounding is monotone and fixes floats |
| data cache | `CacheWord`, `CacheCoherence`, `DCache`, `CacheRuns` | every run refines a flat memory; exactly the acknowledged stores of held requests commit; every request is answered and every flush ends |
| operand delivery | `Pipeline` | every stream ends with the registers of sequential execution, forwarding or stalling, within a linear number of cycles |
| address translation | `Sv39`, `PageWalker` | the walker gives the verdict of the pure walk in at most three reads; a TLB in front changes nothing |
| privilege | `Privilege`, `IssHart`, `CsrUnit`, `PrivilegeRuns` | isolation of machine state, controlled entry to M, non-interference, on the decoded machine and carried to runs of the simulator and of the CSR circuit, which both refine it |
| serial link | `Uart` | which writes are taken and when each is delivered, for every timing |
| integer division | `IntDivider` | the restoring divider gives the ISA's results for every width |
| tools | `Fdt`, `ConstBuilder`, `RandomProgram` | device tree round trip; constant building; when generated programs assemble, and that they halt |

How the model is set up:

- A float is its three fields; an exact value is a `real`, and `Scale(v, k)` is v * 2^k. The
  simulator's fractions are these reals. `IssFloat` is the reference; the units are imperative
  methods over integers with the widths and shifts of the circuits.
- A clocked circuit is a class whose `Clock` method is one edge, or a value-level `Step` with
  the registers in a datatype and a thin class around it.
- The bus is an abstract slave: an acknowledge comes after any delay, and its data is that of
  the address presented. Delays, requests, random choices and branch outcomes are parameters.
- In `Privilege`, `IssHart` and `CsrUnit` a register word is the set of its one bits.
- Subnormals are read and produced as zero, as the core documents for all its float units.

Where the code and its surroundings disagree, the model follows the code:

- On a nonzero exact result below 2^-126 that needs no rounding the circuits raise UF alone and
  the simulator UF and NX. `FpRound.Agrees` states equality of results always and of flags
  except exactly there, in the contract of every unit; `FloatUnits.ExactUnderflowDiffers` is an
  input.
- A load answered at the end of a cache fill returns the last word of the line, so it is right
  for every memory exactly when the request was for that word (`CacheRuns.ColdRead`,
  `CacheRuns.ColdReadWrong`).
- The data cache acknowledges and loses a store that hits in the cycle of a flush, and one that
  replaces a held load on the last word of its fill (`CacheRuns.LostToFlush`,
  `CacheRuns.LostToFill`); `CacheRuns.AcknowledgedStore` is the exact condition, which callers
  that hold their requests and keep them apart from flushes meet.
- funct3 = 100 in a CSR instruction clears bits in the simulator and writes in the circuit
  (`CsrUnit.ZeroOpAgrees`).
- A write to mstatus or sstatus in the cycle of a trap or return is lost
  (`CsrUnit.CsrFile.Clock`).
- lui+addi does not leave the sign-extended word for 2048 values that the generator's
  self-check treats like the others; the 64-bit constant comes out right all the same
  (`ConstBuilder.Const32SignExtends`, `ConstBuilder.Const64Leaves`).
- The device-tree checker accepts blobs that do not decode (`Fdt.AcceptsUnterminated`).
- The generator's budget leaves out the fence it emits (`RandomProgram.OneWordOver`).
- Interrupts are gated by mstatus.MIE in every mode in the simulator, so that bit is visible to
  lower modes and stays in `Privilege.Visible`.

## Model

| member | source | states |
|---|---|---|
| IssFloat.ExponentUnique | sim/tools/iss.py:241-262 | an exact magnitude has one binary exponent, so the normalising loops have one possible answer |
| IssFloat.ExponentExists | sim/tools/iss.py:241-262 | every positive magnitude has a binary exponent, so normalisation always has an answer |
| IssRounding.NormalizeFraction | sim/tools/iss.py:241-262 | for every positive fraction the two loops end with its exponent, the floor of its 24-bit window and the class of what is discarded |
| IssRounding.RoundIntIsCorrect | sim/tools/iss.py:190-210 | the round-up decision is the mode's definition: truncation, floor, ceiling, or a nearest integer with ties to even or away |
| IssRounding.PackedRank | sim/tools/iss.py:213-238 | packing, carry, overflow saturation and flush place the result on one integer scale of floats |
| IssRounding.RoundMonotone | sim/tools/iss.py:190-292 | rounding is monotone over all reals in every mode, through saturation and flush to zero |
| IssRounding.RoundFixesFloats | sim/tools/iss.py:288-292 | every normal float rounds to itself without flags |
| IssRounding.NoFloatSkipped | sim/tools/iss.py:288-292 | no float lies strictly between an exact value and its rounding |
| IssFloat.UnderflowFlags | sim/tools/iss.py:213-238 | a value that needs no rounding underflows in the reference exactly below 2^-126, and then raises NX as well |
| IssFloat.ProductIsExact | sim/tools/iss.py:334-345 | the significand product with added exponents is the product of the exact magnitudes |
| IssFloat.QuotientIsExact | sim/tools/iss.py:348-365 | the scaled significand quotient is the quotient of the exact magnitudes |
| Sticky.ShiftJams | design/fp_round.vh:120-142 | a right shift that ORs lost bits into bit 0 is round-to-odd of the exact shifted value |
| Sticky.JamSum | design/FALU.v:158-161 | adding or subtracting an even number keeps a round-to-odd image a round-to-odd image |
| Sticky.RenormTruncates | design/FALU.v:170-189 | after renormalising, the fields of a round-to-odd image are those of the exact value, if it shifted left at most once or nothing was lost |
| Sticky.RoundFromSummary | sim/tools/iss.py:213-292 | any guard/rest summary of an exact value determines its rounding |
| Sticky.RoundFromCarry | design/fp_round.vh:50-56 | the same for a summary one bit too wide, folded the way the circuit folds it |
| FpRound.RoundUpBit | design/fp_round.vh:61-68 | the guard/round/sticky decision is the reference decision in every mode |
| FpRound.RoundAndPack | design/fp_round.vh:22-112 | from any summary of an exact value it returns the reference result and flags, but for NX on an exact underflow, if and only if the 10-bit exponent does not wrap; a significand without its leading one is packed as if it had it |
| FpRound.StickyOf | design/FMADDUnit.v:79-101 | the accumulation loop ends true exactly when a dropped bit is one |
| FpRound.ShiftRightSticky | design/fp_round.vh:120-142 | for every width and amount, over-long shifts included, the result is the round-to-odd shift |
| AlignAdd.AlignedFits | design/FALU.v:138-161 | the aligned operand never exceeds the other and the sum fits its register |
| AlignAdd.CancellationIsExact | design/FALU.v:138-187 | if cancellation reaches two places, alignment lost nothing |
| AlignAdd.Renormalise | design/FALU.v:177-187 | the loop ends with the leading one in place, having only shifted, and at most once if the sum did not cancel |
| AlignAdd.SumInFrame | design/FALU.v:143-161 | the integer sum or difference is a round-to-odd image of the exact one |
| AlignAdd.AlignAddRound | design/FALU.v:138-190 | aligning, adding, renormalising and rounding in a frame returns the exact total rounded once |
| FloatUnits.AddSub | design/FALU.v:87-192 | fadd.s and fsub.s agree with the reference on all operands and modes, the flags if and only if the exact sum is not a nonzero value below 2^-126 that needs no rounding |
| FloatUnits.Multiply | design/FALU.v:196-250 | fmul.s agrees with the reference on all operands and modes, the flags if and only if the exact product does not underflow exactly |
| FloatUnits.NormaliseProduct | design/FMADDUnit.v:151-161 | the 48-bit product is normalised to a leading one without changing its value |
| FloatUnits.FuseNormals | design/FMADDUnit.v:151-215 | the 112-bit circuit returns the exact product plus addend, rounded once, also when the smaller collapses to a sticky bit |
| FloatUnits.FusedMulAdd | design/FMADDUnit.v:97-220 | the four fused operations agree with the reference on all operands and modes, the flags if and only if the exact total does not underflow exactly |
| FloatUnits.ExactUnderflowDiffers | design/fp_round.vh:70-105 | on 1.5 * 2^-126 - 2^-126 the subtract circuit raises UF alone and the reference UF and NX |
| Restoring.StepPacked | design/Divider.v:91-102 | one shift moves the next dividend bit into the remainder and makes room for a quotient bit, losing none |
| Restoring.DivStep | design/Divider.v:84-102 | one restoring step extends the quotient of the consumed dividend prefix by the right bit |
| Restoring.RemainderFits | design/Divider.v:91-102 | the remainder stays below 2^count, so the bit a shift drops is zero |
| Restoring.DivEnd | design/Divider.v:84-110 | after all steps the registers hold the quotient and remainder |
| FloatDivider.QuotientBounds | design/FDivider.v:173-180 | the quotient of two significands padded by 27 bits lies strictly between 2^26 and 2^28 |
| FloatDivider.PackQuotient | design/FDivider.v:170-191 | both packing windows return the exact quotient rounded once |
| FloatDivider.FDivider.Clock | design/FDivider.v:73-199 | what each edge does when idle, started and busy; a result shown with `done` agrees with the reference on the operands latched at start |
| FloatDivider.Divide | design/FDivider.v:73-191 | a start held through done gives the reference quotient after 52 edges, or one for special operands, with a single done pulse; the flags agree if and only if the exact quotient does not underflow exactly |
| IssFloat.RoundSqrtIsRounded | sim/tools/iss.py:265-302 | the integer decision is, for every real root of the operand, that root rounded once |
| FloatSqrt.RootSummary | sim/tools/iss.py:265-302 | the top 24 bits of the root are the reference's integer root, its two low bits and the remainder classify what is discarded, and a tie cannot occur |
| FloatSqrt.Step | design/FSqrt.v:121-142 | each step keeps Q*Q + R equal to the radicand prefix with R at most 2Q, and no register loses a bit |
| FloatSqrt.Finish | design/FSqrt.v:143-152 | the leading root bit is always bit 25 and the packed result is the reference root |
| FloatSqrt.FSqrt.Clock | design/FSqrt.v:73-157 | what each edge does when idle, started and busy; a result shown with `done` equals the reference on the latched operand |
| FloatSqrt.SqrtIsRealRoot | sim/tools/iss.py:368-378 | fsqrt.s of a positive normal operand is its real square root, rounded once |
| FloatSqrt.SquareRoot | design/FSqrt.v:73-157 | result and flags equal the reference for every operand and mode, after 27 edges or one, with a single done pulse |
| IntDivider.DivRemLaw | sim/tools/iss.py:1012-1036 | outside division by zero and overflow, dividend = divisor * quotient + remainder, the remainder is smaller and has the dividend's sign |
| IntDivider.SpecialResults | design/Divider.v:62-73 | division by zero and signed overflow give the ISA's fixed results |
| IntDivider.Divider.Clock | design/Divider.v:41-110 | what each edge does when idle, started and busy; `done` shows the simulator's quotient and remainder of the latched operands |
| IntDivider.Divide | design/Divider.v:38-110 | for every width and both signednesses, the simulator's results after XLEN+1 edges or one, with a single done pulse |
| CacheWord.MergeIsByteStore | design/DCache.v:215-236 | a merge changes exactly the bytes the store covers |
| CacheWord.ExtendIsByteLoad | design/DCache.v:173-210 | an extended read is the covered bytes, sign- or zero-filled |
| CacheWord.StoreThenLoad | design/DCache.v:173-236 | a load of the width just stored reads the stored value |
| CacheCoherence.StoreKeeps | design/DCache.v:328-336 | a store into an owned word keeps the cache coherent with the flat memory that has the store |
| CacheCoherence.WriteBackKeeps | design/DCache.v:376-400 | writing back an owned word keeps coherence |
| CacheCoherence.CleanKeeps | design/DCache.v:376-400 | marking clean a line whose words are all written back keeps coherence |
| CacheCoherence.InstallKeeps | design/DCache.v:402-416 | a filled line enters service coherently, with unique tags, for a read or with the allocating store merged in |
| CacheCoherence.CleanIsFlat | design/DCache.v:418-434 | with no dirty line left, backing memory is the flat memory |
| DCache.Lookup | design/DCache.v:116-141 | the way comparators find the only line holding the address, or there is none |
| DCache.StepIdle | design/DCache.v:323-371 | flush, write hit, read hit and miss from the idle state keep the invariant and meet the cycle specification |
| DCache.StepWb | design/DCache.v:376-400 | write-back with and without an acknowledge, for eviction and for flush |
| DCache.StepFill | design/DCache.v:402-416 | fill with write-allocate merge, the victim out of service until the last word |
| DCache.StepScan | design/DCache.v:418-434 | the scan writes back dirty lines, skips the others and ends after the last |
| DCache.Step | design/DCache.v:307-463 | every edge keeps tags unique, owned words equal to the flat memory and backing memory stale only under dirty lines; the flat memory changes only by an accepted store |
| DCache.Cache.Clock | design/DCache.v:307-463 | the same over the registers of the circuit |
| CacheRuns.FlatIsReplay | design/DCache.v:307-439 | in every run the memory seen through the cache is the replay of exactly the stores that committed |
| CacheRuns.AcknowledgedStore | design/DCache.v:451-456 | an acknowledged store commits if and only if no flush starts in that cycle and, at the end of a fill, the fill was for a store of the same width and data |
| CacheRuns.HeldRun | design/DCache.v:53-54 | over any run in which requests are held until answered and never come with a flush: exactly the acknowledged stores commit, and an answered load reads the stores so far, at its word on a hit and at the line's last word after a fill |
| CacheRuns.Run | design/DCache.v:131-463 | over any requests, flushes and acknowledges every edge meets the cycle specification from an empty cache on, the flat memory is the replay of the commits, the flush flag is reported as it stands and then memory is that replay, and the protocol theorem holds of what was observed |
| CacheRuns.Serve | design/DCache.v:323-416 | a held request is answered after at most two lines of acknowledged words, none on a hit, takes its effect and leaves its line cached |
| CacheRuns.Flush | design/DCache.v:376-434 | a flush ends for any finite delays with every line clean, tags, valid bits and data unchanged, and memory equal to the flat memory |
| CacheRuns.ColdRead | design/DCache.v:302-304 | the first held load of an empty cache returns the line's last word, hence the right data if that word was asked for |
| CacheRuns.ColdReadWrong | design/DCache.v:460-462 | for every other word there is a memory on which the answer is wrong |
| CacheRuns.LostToFlush | design/DCache.v:324-452 | a store hit acknowledged in the cycle of a flush is lost |
| CacheRuns.LostToFill | design/DCache.v:402-456 | a store that takes a held load's place on the last word of its fill is acknowledged and lost |
| Pipeline.Forward | design/Forward.v:31-44 | the loop selects the nearest producer of the register, or none exists |
| Pipeline.MuxN | design/MuxN.v:25-31 | the loop outputs the selected source, or the default when the select is out of range |
| Pipeline.BypassReadsWritten | design/Register.v:45-60 | reading through the write-first bypass equals reading after the write, x0 included |
| Pipeline.DecodeSeparated | design/HazardNoForward.v:42-64 | each stall rule keeps an instruction out of EX until its strategy can serve its operands |
| Pipeline.OperandIsSequential | design/riscvpipeline.v:1007-1140 | the operands reaching EX are the register values of sequential execution |
| Pipeline.Step | design/reg2.v:215-288 | an edge keeps the correspondence with sequential execution under hold, bubble and pass |
| Pipeline.Run | design/Hazard.v:30-41 | any stream with any memory waits ends with the sequential register file under both strategies, in at most 2n+3 or 3n+3 unheld cycles |
| Sv39.VpnFields | sim/tools/iss.py:896-959 | the three index fields cut from the page number are those cut from the address |
| Sv39.WalkIsLeafAndGrant | sim/tools/iss.py:896-959 | the straight-line walk is the search for a leaf followed by the permission check, so which leaf is found does not depend on the access |
| PageWalker.Decode | design/Ptw39.v:185-294 | each decode state faults, finishes with the reconstructed superpage or descends as the reference walk does |
| PageWalker.Step | design/Ptw39.v:139-299 | every edge keeps the walk equal to the reference for the latched request and moves on unless it waits |
| PageWalker.RunWalk | design/Ptw39.v:139-299 | for any delays a start held through done ends in a single done pulse after at most three reads with the fault or page of the reference walk |
| PageWalker.Tlb.Lookup | design/Tlb39.v:75-95 | a hit gives the page of a fresh walk, and its bits grant an access exactly when a fresh walk for that access and mode succeeds |
| PageWalker.Tlb.Clock | design/Tlb39.v:97-119 | flush empties the TLB with priority; a fill replaces one entry and no other |
| PageWalker.Translate | design/Tlb39.v:63-119 | lookup, walk and fill together return the reference verdict and keep the TLB sound |
| PageWalker.TranslateAll | design/Tlb39.v:63-119 | over any sequence of accesses and fenced changes of satp or the tables, each access gets the verdict of a fresh walk of the space in force |
| Privilege.StatusRoundTrip | design/CSR.v:528-536 | mstatus decoded and encoded again loses only the bits its write mask drops |
| Privilege.StepFromBelow | sim/tools/iss.py:737-802 | one step below M keeps all machine state or is a trap that is not delegated |
| Privilege.Isolation | sim/tools/iss.py:1284-1348 | over any run below M, mtvec, mscratch, mepc, mcause, mtval, medeleg, mideleg and the machine-only bits of mstatus and mie never change |
| Privilege.EntryToMachine | sim/tools/iss.py:737-776 | the first step into M has pc = the mtvec M left, MPP and mepc = the old mode and pc, MPIE = the old MIE, and lower state untouched |
| Privilege.StepIsBlind | sim/tools/iss.py:645-802 | harts that differ only in hidden machine state step alike |
| Privilege.NonInterference | sim/tools/iss.py:1284-1348 | over any run below M, a program that sees only visible state behaves alike over all values of mtvec, mscratch, mepc, mcause, mtval, MPIE, MPP and the machine enables |
| Privilege.MretUndoesTrap | sim/tools/iss.py:778-788 | a trap taken to M and returned from leaves everything lower modes can see as it was |
| Privilege.SretUndoesTrap | sim/tools/iss.py:790-802 | a delegated trap returned from restores pc, mode and SIE, and touches no machine state |
| Privilege.StepKeepsLegal | sim/tools/iss.py:1301-1309 | the reserved mode is entered or stored if and only if a CSR write puts it in MPP; otherwise no step fails |
| Privilege.RunKeepsLegal | sim/tools/iss.py:1284-1348 | over any run without that write the mode stays U, S or M and every `ecall` has a cause |
| IssHart.ReadCsrAgrees | sim/tools/iss.py:645-679 | the dictionary and its masked views read as the decoded machine |
| IssHart.Iss.WriteCsr | sim/tools/iss.py:681-735 | every masked write is the decoded machine's, and the views touch only their bits |
| IssHart.Iss.TakeTrap | sim/tools/iss.py:737-776 | the in-place bit surgery is the decoded machine's trap, delegated or not |
| IssHart.Iss.ReturnMachine | sim/tools/iss.py:778-788 | `mret` on the masked word is the decoded machine's |
| IssHart.Iss.ReturnSupervisor | sim/tools/iss.py:790-802 | `sret` on the masked word is the decoded machine's |
| IssHart.Iss.System | sim/tools/iss.py:1284-1348 | the SYSTEM dispatch is the decoded machine's step, privilege checks and the failed `ecall` lookup included |
| IssHart.Iss.Do | sim/tools/iss.py:1470-1529 | every command of the run loop, interrupts behind mstatus.MIE included, is the decoded machine's step |
| CsrUnit.ReadAgrees | design/CSR.v:444-472 | the read mux reads as the decoded machine, plus the hardware lines in mip |
| CsrUnit.ZeroOpAgrees | design/CSR.v:516-518 | circuit and simulator compute the same new value if and only if the operation is not 00, or both words are zero |
| CsrUnit.NextStatus | design/CSR.v:733-762 | the per-bit assignments to mstatus are the decoded field updates |
| CsrUnit.CsrFile.Clock | design/CSR.v:594-824 | every cycle's registers are the decoded machine's after its event, and where events and a CSR write coincide exactly which effects survive |
| PrivilegeRuns.RunIss | sim/tools/iss.py:1470-1529 | every run of the simulator is a run of the privilege machine, and while it stays below M no machine word of the CSR dictionary changes |
| PrivilegeRuns.RunPair | sim/tools/iss.py:1470-1529 | two simulators that differ only in hidden machine state stay alike to code below M |
| PrivilegeRuns.UnitRefines | design/riscvpipeline.v:1632-1680 | a cycle in which the pipeline presents one event to the CSR circuit, or nothing, is the privilege machine's step, for every event and operation but funct3[1:0] = 0 |
| PrivilegeRuns.OutcomeFromBelow | design/CSR.v:679-777 | behind the pipeline's privilege gates, any cycle below M, coincidences included, keeps machine state or is a trap into M with mode, pc and enable saved |
| PrivilegeRuns.CircuitIsolation | design/CSR.v:594-824 | over any run of the circuit behind the gates that stays below M, coincidences included, no machine register changes |
| PrivilegeRuns.CircuitEntry | design/CSR.v:679-777 | the first cycle into M is a trap that is not delegated, to the vector M left, with mode, pc and enable saved |
| PrivilegeRuns.CircuitNonInterference | design/CSR.v:594-824 | over any run below M behind the gates, surroundings that see only visible state see the same circuit over any hidden state |
| PrivilegeRuns.RunCsr | design/CSR.v:594-824 | the clocked circuit follows the run of its specification and is isolated below M |
| PrivilegeRuns.RunCsrPair | design/CSR.v:594-824 | two clocked circuits that differ only in hidden machine state stay alike below M |
| Uart.ClockTx | design/Uart.v:149-200 | the wire carries start, data and stop segments of exactly CLKS_PER_BIT edges each, and a write is taken exactly when the frame is over |
| Uart.ClockRx | design/Uart.v:215-290 | the receiver keeps a fixed distance to the frame, delivers its byte exactly on leaving the stop bit, and the ready flag holds until a read |
| Uart.SampleInsideBit | design/Uart.v:264-276 | every sample lands inside its own bit |
| Uart.WireSeen | design/Uart.v:240-276 | what the receiver sees where it looks: the falling edge, the confirmed start bit, each data bit, the idle line |
| Uart.IdleBeforeNext | design/Uart.v:277-286 | the receiver is done with a frame before the next one can start |
| Uart.TakenOneInFlight | design/Uart.v:149-290 | of the writes taken all but the last have been delivered |
| Uart.DeliveredPrefix | design/Uart.v:149-290 | the bytes delivered are a prefix of the bytes taken, in order |
| Uart.Run | design/Uart.v:149-290 | for every CLKS_PER_BIT of at least 2 and any timing: exactly the writes at least ten bit times and an edge apart are taken, each is delivered exactly nine and a half bit times and two edges later, and RBR and its ready flag show the last one until it is read |
| Fdt.FindNulAfter | sim/tools/gen_dtb.py:239-244 | a NUL-free name ends at its own terminator whatever follows |
| Fdt.EncodeExtend | sim/tools/gen_dtb.py:48-52 | names added later leave every offset already emitted valid |
| Fdt.ReadsBack | sim/tools/gen_dtb.py:54-67 | the structure block decodes to exactly the emitted events |
| Fdt.ParseLinear | sim/tools/gen_dtb.py:54-67 | the events of a tree parse back to that tree |
| Fdt.FdtBuilder.StringOff | sim/tools/gen_dtb.py:48-52 | the offset returned reads back the name, shared or new, keeps all others, and adds bytes only for a new name |
| Fdt.FdtBuilder.PropRaw | sim/tools/gen_dtb.py:61-66 | whenever length and offset fit their words, a property is appended with its name's offset |
| Fdt.FdtBuilder.Build | sim/tools/gen_dtb.py:85-111 | the blob has a consistent header and decodes to the calls made on the builder |
| Fdt.BuildTree | sim/tools/gen_dtb.py:37-111 | every tree of NUL-free names whose blob, names shared, is below 2^32 bytes decodes back to itself |
| Fdt.TreeScans | sim/tools/gen_dtb.py:223-262 | the checker's counters are the tree's depth and number of properties, and it accepts if and only if the depth is at least 2 and a property exists |
| Fdt.ParseAndValidate | sim/tools/gen_dtb.py:206-263 | its exact answer on every blob, which on a consistent blob that decodes is that of the decoded events |
| Fdt.AcceptsUnterminated | sim/tools/gen_dtb.py:248-253 | a consistent blob it accepts and that does not decode, its property name having no NUL |
| Fdt.BuildAndValidate | sim/tools/gen_dtb.py:37-263 | emitter, decoder and checker end to end for every tree |
| ConstBuilder.Const32SignExtends | sim/tools/random_gen.py:119-159 | the executed sequence always leaves the right low half, and the sign-extended word if and only if it is not among the 2048 values below 2^31 |
| ConstBuilder.Const32Leaves | sim/tools/random_gen.py:144-159 | lui+addi run on the 64-bit simulator leave that value and change no other register |
| ConstBuilder.OrDisjoint | sim/tools/iss.py:1060-1068 | OR of a shifted half and a half below it is their sum |
| ConstBuilder.Const64Leaves | sim/tools/random_gen.py:95-116 | for every 64-bit value and two distinct nonzero registers the sequence leaves the value, the low half in the scratch register, and the rest unchanged |
| RandomProgram.AccessOffset | sim/tools/random_gen.py:401-414 | a drawn offset is encodable; the access is inside memory and aligned if and only if the base leaves room and is aligned |
| RandomProgram.Generate | sim/tools/random_gen.py:491-531 | for every random choice the statements come in order and every jump's label resolves to the instruction drawn, or to the end where its label is emitted a second time |
| RandomProgram.FirstPass | sim/tools/asm.py:377-390 | statements in order and the last definition of every label |
| RandomProgram.BranchOffsetReadsBack | sim/tools/asm.py:243-252 | an offset encodes if and only if it is even and in range, and the simulator's decoder recovers it |
| RandomProgram.JalOffsetReadsBack | sim/tools/asm.py:255-263 | the same for jal |
| RandomProgram.Assemble | sim/tools/asm.py:377-434 | every word encodes its statement against the final label addresses, and failure names a statement that cannot be encoded |
| RandomProgram.AssemblesIff | sim/tools/asm.py:46-52 | a generated program assembles if and only if its base is below 0x800 and every branch is within 1023 and every jal within 262143 instructions of its target |
| RandomProgram.ShortIsInReach | sim/tools/random_gen.py:491-531 | below 1024 instructions everything is in reach, whatever is drawn |
| RandomProgram.LongIsNot | sim/tools/asm.py:243-252 | from 1024 instructions on a first branch to the end is not |
| RandomProgram.AssembledWords | sim/tools/asm.py:392-434 | the words are those of the drawn instructions in order, every jump's offset reaching its drawn target |
| RandomProgram.AssembledTerminates | sim/tools/random_gen.py:491-531 | every branch and jal but the halt loop goes strictly forward, no further than the halt loop, also where its label is emitted twice |
| RandomProgram.Simulate | sim/tools/iss.py:1470-1529 | on any words the loop is the run of the step function from reset: where it stops and why, after how many steps, and every access on the way |
| RandomProgram.HaltsInTime | sim/tools/iss.py:1470-1529 | the run of a forward-only program reaches its halt loop in fewer steps than it has words, whatever its branches do |
| RandomProgram.GenerateAndRun | sim/tools/random_gen.py:276-531 | a program comes out if and only if it is within budget, its base fits and its jumps are in reach, which the budget implies up to 4096 bytes; it then halts, each access is aligned and inside memory if and only if one at the base pointer is, and the words fit memory if and only if the program is not exactly at budget |
| RandomProgram.OneWordOver | sim/tools/random_gen.py:276-280 | a program at budget in 128 bytes has one word more than fits, the fence not being counted |

## Left out

- DCache.Lookup: the OR-accumulation of matching ways is modelled as selection, which unique tags make equal; the tag uniqueness itself is proved.
- DCache.Step: addresses are records of tag, set, word and byte offset and words are four bytes (XLEN = 32); the bit slicing of an address and the hit and miss counters are not modelled.
- CacheRuns.Run: load misses are specified as the code answers them, with the line's last word; every request address is in range of the geometry, as address bits are.
- Pipeline.Run: the stream has register operations and loads over an unchanging data memory; stores, branches and their squash, multi-cycle units, interrupts and the float register file are not in the stream.
- PageWalker.Translate: satp is a parameter, because the simulator truncates every CSR to 32 bits; sharing of the bus with other masters is not modelled.
- Privilege.Isolation: XLEN = 32; the pc is a 32-bit word, while the simulator's next pc is not reduced until it is stored; instructions outside SYSTEM are events that compute or fault, and memory protection is the translation model's subject.
- CsrUnit.CsrFile.Clock: performance counters, the RV64 UXL/SXL fields and the satp decode are not modelled.
- PrivilegeRuns.UnitRefines: the funct3[1:0] = 0 operation is excluded, on which simulator and circuit differ; coincident events are the subject of PrivilegeRuns.OutcomeFromBelow.
- Uart.Run: the divisor-latch bit is 0; line status, interrupt enables and the bus interface are not modelled, and the two ends share a clock.
- Fdt.BuildTree: names and values are byte strings; the typed property helpers and the core's own tree are clients of it.
- Fdt.FdtBuilder.PropRaw: a length or offset of 2^32 or more, where packing raises and leaves half a token behind, is not modelled.
- FloatSqrt.SqrtIsRealRoot: stated for every real root; that one exists is not part of the model.
- RandomProgram.GenerateAndRun: default mode only (no interrupt, no MMU prefix); instructions are a datatype instead of text, and a computation is its destination register.
- `design/riscvpipeline.v` beyond hazards, operand forwarding and write-back: branch prediction, AMO sequencing, interrupt timing and the memory stall logic.
- `design/ICache.v`, `design/Ptw.v`, `design/Tlb.v`: simpler relatives of modelled circuits.
- `design/CompressedExpander.v`, float compare, min/max, classify, sign injection and int/float conversion: case tables that would only add easy members.
- Timing of real memories and `design/RamWishboneAdapter.v`: the bus slave stays abstract.
- Build scripts, benchmark runners, the debugger, the firmware and the FPGA files.
