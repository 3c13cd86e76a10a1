# Xbyak, modelled and proved

Xbyak is a C++ JIT assembler. This project models its hard parts in Dafny and proves them: the label and fix-up
engine, the instruction encoders, the stack frame generator, the packed CPU set, and three code generators built on
the assembler (division by a constant, a toy virtual machine, a Brainfuck compiler). `dafny verify dfyconfig.toml`
checks everything.

## Layout

Code that changes state in the source is a class or a method with loops here, proved equal to a specification
function; the theorems are about the functions and, through those contracts, about the methods.

| files | what they model |
|---|---|
| Division, Quantize | number theory of division by multiplication; the multiplier search and the emitted program of sample/quantize.cpp |
| Machine | the 32-bit x86 on which the three generated programs run: registers, zero and carry flags, byte memory, call stack, calls into C that may overwrite what the convention lets them |
| ToyVm | the interpreter and the compiler of sample/toyvm.cpp, and a simulation in both directions |
| Brainfuck | character-by-character semantics, the folding compiler of sample/bf.cpp with its stream and label stacks (32-bit variant), and a simulation in both directions |
| Assembler, TwoPass, Refinement, CodeGenerator | the one-pass engine as a state machine, a two-pass assembler, the refinement between them, AutoGrow against the fixed buffer, what every call leaves in the finished bytes, and the class that works on the array |
| Alignment | align and nop, with a decoder of NOPs |
| LabelNames, LabelLife, LabelManager | string labels with @@, @f, @b and local scopes; label objects with reference counts; the two classes |
| RegExp, AddressEncoder | address expressions; ModR/M and SIB with a decoder written from the Intel SDM, volume 2A, sections 2.1.5, 2.2.1 and 2.7.5 |
| LabelOperand | instructions with [rip + label + n], from the emitters through the label engine to the decoders, in both kinds of buffer |
| Difference | inputs and exact conditions where the label engine surprises |
| LegacyEncoder, LegacySize | rex, rex2, opRR, opMR, opSSE, opOI and mov with an immediate, with a decoder of prefixes, opcode maps, operand names and immediates; operand sizes, chosen forms and refusals |
| PrefixEncoder, PrefixMeaning, PrefixEmitter | vex, evex and opVex, with a decoder written from sections 2.3.5 and 2.7; what the operands ask for, said without the encoder; the class that writes |
| StackFrame | prolog and epilog of StackFrame on both tables (System V and Win64), a machine for push, pop, push2, pop2, sub, mov and vector moves |
| Packing, CpuMask, CpuText, CpuMaskText, CpuMaskClass | the packed CpuMask, its text, and the std::set version of the same file |
| Arith, Bytes | powers, division, little-endian bytes |

The main theorems are `Quantize.Quantizer.constructor`, `ToyVm.CompilationPreservesMeaning`,
`Brainfuck.CompilationPreservesMeaning`, `Refinement.OnePassIsTwoPass`, `Refinement.AutoGrowIsFixed`, `Refinement.EveryFieldLeads`,
`AddressEncoder.OperandMeansTree`, `LegacyEncoder.MemoryDecodes`, `LegacyEncoder.ArithDecodes`,
`PrefixMeanings.MemoryFormDecodes`, `PrefixMeanings.MemoryFormIsInjective`, `LabelOperands.VexReaches`,
`StackFrames.EveryFlagWordKeeps`, `LabelNames.EveryReferenceLeads`,
`LabelLife.RunKeeps`, `CpuMasks.AppendRefinesSet` and `CpuMaskTexts.TextRoundTrip`.

Operating system, allocator and C library enter as parameters: an allocator is any function from the number of the
growth to a page-aligned base, a call into C may leave anything in caller-saved registers, flags and its argument
slots. The mnemonic table enters as the attributes and the opcode of an instruction. Errors are one failure outcome.

## Where the code does not do what one would expect

Where bytes go wrong there is a lemma with an input and one with the exact condition on the operands or the state.

- Zeroing that is asked for on a memory source alone is dropped, so that `vaddps zmm1{k1}, zmm2, [rax]{z}` merges; a
  second mask beside a masked memory operand is dropped (`PrefixMeanings.VaddpsMerges`, `VmovapsForgets`; for all
  operands `ZeroIsDropped`, `MaskIsDropped`). Two operand sets may therefore share an encoding;
  `PrefixMeanings.Lossless` is the exact condition under which the bytes say what was asked for, and among lossless
  operands the encoding is injective.
- A rounding modifier beside memory is accepted where T_ER_R allows it on general registers
  (`PrefixMeanings.RoundingIsAccepted`, `Lossless`).
- `opVex` with a VEX gather drops bit 4 of the index: xmm17 becomes xmm1 (`PrefixEncoder.GatherIndexIsLost`,
  `Lossless`).
- `opVex` on a 64-bit absolute address emits an instruction without operand; the legacy forms refuse such an address
  (`PrefixEncoder.AbsoluteOperandIsLost`, `AddressEncoder.OperandIsWritten`).
- `movzx rax, ah` and `mov ah, [r8]` are accepted and access spl instead: the check for ah, ch, dh and bh compares
  the two registers but neither W nor the address (`LegacyEncoder.HighByteIsLost`, `HighByteBesideAddress`;
  `Named` with `RexedRegs` and `RexedMem` is the exact condition).
- The range check of a jump to an absolute address counts from the start of the instruction: a fixed buffer accepts
  targets just inside that range and reaches the wrong address (`Differences.EdgeJumpMisses`; it leads to its target
  exactly when the distance from the end fits, `Refinement.EveryFieldLeads`).
- `assignL` gives an absolute reference the current address (`Differences.AssignedAddressIsWrong`, exactly when:
  `AssignedAddressIs`), and on a label that was never referenced it defines id 0, so that later references stay
  undefined (`LabelLife.AssignedBeforeUse`, exactly when: `AssignLWorks`).
- T_AUTO jumps to absolute addresses differ between the two buffers when near is the default
  (`Differences.AutoKindDiffers`, exactly when: `AutoKindIs` with `GrownIsNear`).
- The comment on CpuMask promises discrete values with gaps, but 3,5,6 is stored as discrete values; the std::set
  version prints it as 3,5-6, which the compact one refuses to read (`CpuMaskTexts.CompactRefusesSetText`, exactly
  when: `CompactReads`).
- The comment on `disp8N` says that 1 forces disp32; setSIB treats 1 as a divisor like any other
  (`AddressEncoder.OneDoesNotForceDisp32`, `PrefixMeanings.CompressesIs`).
- mov with an immediate to memory takes immediates of one bit more than the operand and cuts them
  (`LegacySizes.SizeAccepts`), and to a 64-bit register with an immediate of 32 bits ignores NF and ZU, which it
  refuses otherwise (`LegacySizes.MoveAcceptsRegister`).
- verify() tests the base for 128 bits and more, which no expression has: such registers always become the index
  (`RegExps.BaseIsGeneral`).

## Model

| member | source | states |
|---|---|---|
| Division.LargestMultiple | sample/quantize.cpp:86 | 0xFFFFFFFF minus its remainder is the largest value below 2^32 that is 1 short of a multiple of the divisor, as the choice of k needs it |
| Division.OddNotDividesPow2 | sample/quantize.cpp:87-88 | an odd number above 1 divides no power of two, so the lower candidate is never exact |
| Division.ErrorBound | sample/quantize.cpp:82-89 | if the rounding error times the largest critical dividend stays within the scale, the error never carries into the quotient, for any 32-bit dividend |
| Division.RoundUpDivides | sample/quantize.cpp:82-89 | multiplying any 32-bit x by a rounded-up reciprocal within that bound and dividing by the scale is exactly x / odd |
| Division.RoundDownDivides | sample/quantize.cpp:98-105 | multiplying x + 1 by a rounded-down reciprocal whose remainder is small enough is exactly x / odd, for every 32-bit x |
| Division.AccumulatedError | sample/quantize.cpp:98-105 | the increment of the dividend is worth at least the error accumulated over the whole quotient |
| Quantize.ILog2 | sample/quantize.cpp:53-58 | ilog2(x) is the n with 2^n <= x < 2^(n+1) |
| Quantize.FactorOut | sample/quantize.cpp:69-73 | the loop splits the dividend into odd * 2^exponent with odd odd |
| Quantize.Bounds | sample/quantize.cpp:82-89 | the two starting bounds are computed without leaving 64 bits; the upper one is a valid rounded-up reciprocal |
| Quantize.FirstCandidate | sample/quantize.cpp:82-89 | roundUp + k stays below 2^64 and the first upper bound satisfies mHigh*odd > 2^(32+len) with error times nc at most 2^(32+len) |
| Quantize.Narrow | sample/quantize.cpp:91-93 | halving both bounds while they stay apart keeps both conditions at the smaller scale, and one halving makes the upper bound fit 32 bits |
| Quantize.NarrowBounds | sample/quantize.cpp:91-93 | the narrowing loop ends with a valid upper bound; it fits 32 bits unless the loop did not run at all |
| Quantize.FallbackRemainder | sample/quantize.cpp:98-104 | when the narrowing loop cannot take a step, the remainder of 2^(32+len) by odd is at most odd>>1, and the rounded-down multiplier fits 32 bits and meets the condition for dividing with an increment |
| Quantize.Fallback | sample/quantize.cpp:98-105 | the fallback chooses the multiplier that divides when the dividend is incremented, with a shift one smaller |
| Quantize.HalveMultiplier | sample/quantize.cpp:106-108 | dividing an even multiplier and its scale by two keeps it correct, and the shift cannot become negative |
| Quantize.StripFactors | sample/quantize.cpp:106-108 | the reduction loop ends with an odd multiplier, a shift that is not negative, and the same quotients |
| Quantize.Multiplier | sample/quantize.cpp:82-108 | for every odd divisor the search returns m, len and a with which the high part of m*x (or m*(x+1)), shifted by len, is x / odd for all 2^32 dividends |
| Quantize.SuitsDivides | sample/quantize.cpp:95-108 | a multiplier meeting the search condition, with or without increment, divides every 32-bit dividend |
| Quantize.DivisorIs | sample/quantize.cpp:53-73 | the divisors udiv is exact for are all below 2^30 and the even ones below 2^31 |
| Quantize.MultiplierDivides | sample/quantize.cpp:109-120 | the emitted mov, mul, add, adc, shr, mov sequence leaves x / dividend in eax on the 32-bit machine, including the carry from the increment, and changes only eax, edx and the flags |
| Quantize.TrivialDivides | sample/quantize.cpp:67-80 | for a power of two the emitted load and shift divide |
| Quantize.Quantizer.UDiv | sample/quantize.cpp:65-121 | udiv appends a segment that divides the word at [esi + offset] by the divisor, for every divisor below 2^31 with an odd part below 2^30 and every machine state |
| Quantize.ProgramComputes | sample/quantize.cpp:127-138 | prolog, 64 divisions and epilog together do what the reference loop does to memory, and restore edi, esi and the stack |
| Quantize.Quantizer.constructor | sample/quantize.cpp:125-139 | the generated function computes dest[i] = src[i] / qTbl[i] one element after the other, as the C loop at lines 142-147 does, even when dest and src overlap |
| Machine.WrapIs | sample/toyvm.cpp:95-112 | machine words are numbers modulo 2^32 |
| ToyVm.DecodeEncode | sample/toyvm.cpp:238-248 | decode undoes encode for every opcode, register and 16-bit immediate |
| ToyVm.PutRuns | sample/toyvm.cpp:200-216 | the printf call sequence reports the register once and restores eax, ecx, edx and the stack, whatever printf leaves in the caller-saved registers and argument slots |
| ToyVm.BlockRuns | sample/toyvm.cpp:157-227 | the code of one instruction takes the machine from in step with the interpreter to in step with its next round |
| ToyVm.RoundsRun | sample/toyvm.cpp:128-233 | after any number of interpreter rounds there is a number of machine steps that has caught up: A in esi, B in edi, the first three cells in eax, ecx and edx, the others in memory |
| ToyVm.CompiledEnds | sample/toyvm.cpp:76-233 | if run() ends, the compiled program halts with the same PUT events, the same cells and the callee-saved registers restored |
| ToyVm.CompiledGoesOn | sample/toyvm.cpp:76-233 | while run() goes on, so does the compiled program |
| ToyVm.CompilationPreservesMeaning | sample/toyvm.cpp:76-233 | for every well-formed program, the compiled code halts if and only if run() ends, and any halting state agrees with any final interpreter state in events, cells and restored registers |
| ToyVm.ToyMachine.constructor | sample/toyvm.cpp:54-58 | a new machine has no code and 65536 zero cells |
| ToyVm.ToyMachine.Append | sample/toyvm.cpp:59-67 | each v-instruction appends one word that decodes to it |
| ToyVm.ToyMachine.SetMark | sample/toyvm.cpp:68-71 | the mark is the number of words so far |
| ToyVm.ToyMachine.GetMarkOffset | sample/toyvm.cpp:72-75 | the distance from the word behind the next one to the mark |
| ToyVm.ToyMachine.Vjnz | sample/toyvm.cpp:66 | vjnz appends the word of a jump with its distance cut to 16 bits |
| ToyVm.JumpGoes | sample/toyvm.cpp:118-121 | in run() that word takes a non-zero register from pc to pc + 1 + offset, backward as well as forward, for every offset of 16 signed bits |
| ToyVm.CompiledJumpGoes | sample/toyvm.cpp:217-220 | and the code recompile() emits for it goes to the label of the same instruction |
| ToyVm.ToyMachine.Run | sample/toyvm.cpp:76-127 | the loop over reg, mem_ and pc does what the stepwise interpreter does, for any number of rounds |
| ToyVm.ToyMachine.Recompile | sample/toyvm.cpp:128-233 | the emitting loop, with its label counter, generates exactly the code that the simulation theorem is about |
| Brainfuck.CloseOpens | sample/bf.cpp:112-130 | in a balanced source the bracket that closes [ is a ], is opened by it, and is the first position where the depth is back |
| Brainfuck.OpenCloses | sample/bf.cpp:112-130 | and the other way round |
| Brainfuck.RunMeans | sample/bf.cpp:13-23 | reading a run of one character, with white space between, repeats that character as often as getContinuousChar counts |
| Brainfuck.FoldedRuns | sample/bf.cpp:67-84 | one inc, dec or add on the cell (modulo 256) or the pointer does what the whole run does |
| Brainfuck.FindLabels | sample/bf.cpp:112-130 | B is the position of the loop test and F the position just behind the jump of the matching ] |
| Brainfuck.OpenToken | sample/bf.cpp:112-122 | the code of [ falls through on a non-zero cell and otherwise goes behind the matching ] |
| Brainfuck.CloseToken | sample/bf.cpp:123-130 | the code of ] goes back to the test of the matching [ |
| Brainfuck.TokenRuns | sample/bf.cpp:65-134 | the code of any token does what the characters it was read from do |
| Brainfuck.EndsFrom | sample/bf.cpp:65-148 | if the source ends within n characters, the program halts with its outcome |
| Brainfuck.StopsFrom | sample/bf.cpp:65-148 | if the program stops within k steps, the source has ended |
| Brainfuck.CompilationPreservesMeaning | sample/bf.cpp:24-149 | for every balanced source the generated function halts if and only if the source does, with the same output, the same input consumed, the same tape, and ebp, esi, edi and the stack restored |
| Brainfuck.Stream.Get | sample/bf.cpp:17 | is >> p skips white space, gives the next character, and at the end fails for good |
| Brainfuck.Stream.Unget | sample/bf.cpp:21 | unget steps back one character, and does nothing on a stream that has failed |
| Brainfuck.GetContinuousChar | sample/bf.cpp:13-23 | the loop counts the run and leaves the stream on the first character behind it |
| Brainfuck.StacksPush | sample/bf.cpp:112-122 | pushing B and F keeps the two label stacks equal to the open brackets |
| Brainfuck.StacksPop | sample/bf.cpp:123-130 | on ] both stack tops belong to the matching [, and popping them keeps the invariant |
| Brainfuck.Compiler.EmitToken | sample/bf.cpp:66-133 | one round of the switch emits the code of one token, advances the stream behind it and keeps the stacks |
| Brainfuck.Compiler.constructor | sample/bf.cpp:24-149 | the constructor generates exactly the code that the simulation theorem is about |
| Assembler.EmitSpec | xbyak/xbyak.h:1810-1825 | db appends its bytes or refuses; a fixed buffer refuses exactly when they do not fit, an AutoGrow buffer never does and keeps what it held |
| Assembler.ResolveValid | xbyak/xbyak.h:2132-2167 | patching keeps the length of the buffer and touches nothing else of the state but pending references and saved patches |
| Assembler.StepValid | xbyak/xbyak.h:1810-1885 | every call keeps all references and patches inside the emitted bytes |
| Assembler.RangesMean | xbyak/xbyak.h:946-953 | the range checks are exact: a value passes if and only if its one or four bytes read back as the value |
| Assembler.NeverSplit | xbyak/xbyak.h:2797 | a growing buffer has more than 16 bytes left when a jump or a label field begins, and does not grow inside it |
| TwoPass.ResolveAgrees | xbyak/xbyak.h:2139-2166 | define_inner succeeds exactly when every waiting field fits its label, and then the buffer is what a layout with the new label renders, every other byte unchanged |
| TwoPass.DefineAgrees | xbyak/xbyak.h:2132-2167 | defining a label succeeds exactly when it is new and all its references fit, and keeps the engine equal to the layout |
| TwoPass.JumpAgrees | xbyak/xbyak.h:2779-2814 | a label jump writes or records what the layout places: short or near, forward or backward |
| TwoPass.PutAgrees | xbyak/xbyak.h:3114-3134 | the same for rip-relative displacements and for addresses of labels |
| TwoPass.JumpAbsAgrees | xbyak/xbyak.h:2815-2829 | the same for jumps to absolute addresses |
| TwoPass.AlignAgrees | xbyak/xbyak.h:3925-3934 | the same for alignment; in an AutoGrow buffer the padding depends only on the offset, because the base is page-aligned and x divides the page size |
| TwoPass.StepAgrees | xbyak/xbyak.h:2132-2167 | each call of the engine agrees with placing one piece |
| TwoPass.PlaceMono | xbyak/xbyak.h:2132-2167 | what makes a layout unacceptable cannot be repaired by later calls |
| TwoPass.RunAgrees | xbyak/xbyak.h:2132-2167 | after every sequence of calls the one-pass engine and the layout agree |
| Refinement.OnePassIsTwoPass | xbyak/xbyak.h:2132-2167 | for every sequence of calls on a fixed buffer, back-patching yields exactly the bytes of a two-pass assembler that knows all labels, and refuses exactly what it refuses |
| Refinement.AutoGrowResult | xbyak/xbyak.h:1739-1760 | an AutoGrow session yields the layout rendered at the final address, or fails if a label is missing or a distance does not fit |
| Refinement.AutoGrowIsFixed | xbyak/xbyak.h:1739-1760 | growing any number of times and then calling ready() yields the bytes of a fixed buffer at the final base; one succeeds if and only if the other does when no absolute jump lies on the edge of its range |
| Refinement.EveryFieldLeads | xbyak/xbyak.h:2779-2829 | in the finished code of any session, fixed or grown, every call has left what it is for: L a label at the bytes emitted before it; a jump its short code and one byte, or its prefix, its long code and four bytes, that lead from its end to the label; rip-relative and 8-byte label fields their label; an absolute jump its target, exactly when the distance fits; align a position that is a multiple of x |
| Alignments.NopsAreNops | xbyak/xbyak.h:3880-3919 | nop(size) is size bytes of NOPs and nothing else for a decoder of NOP and 0F 1F /0, of one byte each or of at most 9 or 15 |
| Alignments.AlignedByNops | xbyak/xbyak.h:3925-3934 | in finished code align(x) is less than x bytes of NOPs in front of a multiple of x |
| Alignments.PowerOfTwoMeans | xbyak/xbyak.h:3925-3934 | the arguments align takes are the powers of two |
| LabelOperands.FixedFinishes | xbyak/xbyak.h:2132-2167 | what a session in a fixed buffer returns is finished code |
| LabelOperands.GrownFinishes | xbyak/xbyak.h:1739-1760 | so is what a session in a growing buffer returns, at its final address |
| LabelOperands.InsnIsFilled | xbyak/xbyak.h:2849-2850 | in finished code an instruction with a label operand has the bytes it was emitted with, but for the four that hold the distance from the next instruction |
| LabelOperands.SseReaches | xbyak/xbyak.h:2862-2868 | opSSE with [rip + label + n], forward or backward, in either buffer: the finished bytes decode to an operand that leads to label + n, counted from behind the immediate |
| LabelOperands.ArithReaches | xbyak/xbyak.h:3014-3025 | the same for opOI and its immediates of one, two and four bytes |
| LabelOperands.MoveReaches | xbyak/xbyak.h:3678-3698 | the same for mov with an immediate |
| LabelOperands.VexReaches | xbyak/xbyak.h:3165-3203 | the same for opVex |
| LabelOperands.FixupIsCall | xbyak/xbyak.h:3131-3133 | what the emitters record for a label is the call that the label engine is given |
| Differences.EdgeJumpMisses | xbyak/xbyak.h:2815-2829 | a jump to an absolute address just inside the checked range is accepted in a fixed buffer and lands 4 GiB off: the check counts from the start of the instruction, the field from its end |
| Differences.AssignedAddressIs | xbyak/xbyak.h:2148-2149 | after any calls to a fixed buffer: an 8-byte reference that assignL resolves holds the current address, so the label's if and only if the source label was defined just here |
| Differences.AssignedAddressIsWrong | xbyak/xbyak.h:2148-2149 | an input where it is not |
| Differences.AutoKindIs | xbyak/xbyak.h:2779-2791 | with near as default, T_AUTO to an absolute address is the near form in a fixed buffer if and only if the target is out of reach of the short one |
| Differences.GrownIsNear | xbyak/xbyak.h:2815-2829 | in a growing buffer it always is, over whole sessions |
| Differences.AutoKindDiffers | xbyak/xbyak.h:2815-2829 | an input where the two buffers differ: 5 bytes and 2 |
| CodeGenerators.ResolveFirst | xbyak/xbyak.h:2140-2166 | fixing and erasing the first matching reference over and over is the same as one pass over the list |
| CodeGenerators.CodeGenerator.constructor | xbyak/xbyak.h:1722-1733 | a new generator is the empty state |
| CodeGenerators.CodeGenerator.GrowMemory | xbyak/xbyak.h:1739-1748 | the new buffer holds the old bytes, sits at the allocator's address, and is of 4096 bytes or twice the old size, whichever is more |
| CodeGenerators.CodeGenerator.Db | xbyak/xbyak.h:1810-1821 | appends one byte to the array, grows or refuses as the state machine does |
| CodeGenerators.CodeGenerator.Dbs | xbyak/xbyak.h:1822-1825 | appends a sequence of bytes |
| CodeGenerators.CodeGenerator.Rewrite | xbyak/xbyak.h:1873-1881 | overwrites exactly the n bytes at the offset with the little-endian value |
| CodeGenerators.CodeGenerator.FixOne | xbyak/xbyak.h:2143-2164 | checks, then patches or saves one reference |
| CodeGenerators.CodeGenerator.Find | xbyak/xbyak.h:2141-2142 | finds the first reference to the label |
| CodeGenerators.CodeGenerator.FixAndErase | xbyak/xbyak.h:2143-2165 | one round of the loop leaves the same work to do |
| CodeGenerators.CodeGenerator.DefineInner | xbyak/xbyak.h:2132-2167 | the loop resolves all references to the label, as the state machine does |
| CodeGenerators.CodeGenerator.L | xbyak/xbyak.h:2262-2267 | defines the label at the current offset |
| CodeGenerators.CodeGenerator.AssignL | xbyak/xbyak.h:2268-2275 | defines the label at another label's offset |
| CodeGenerators.CodeGenerator.AddUndefined | xbyak/xbyak.h:2811-2812 | emits a placeholder and records the reference |
| CodeGenerators.CodeGenerator.Save | xbyak/xbyak.h:1882-1885 | records a patch for calcJmpAddress |
| CodeGenerators.CodeGenerator.KeepTogether | xbyak/xbyak.h:2797 | grows beforehand when fewer than 16 bytes are left |
| CodeGenerators.CodeGenerator.OpJmp | xbyak/xbyak.h:2793-2814 | a jump to a label, step by step, with all its errors |
| CodeGenerators.CodeGenerator.PutL | xbyak/xbyak.h:3114-3134 | putL_inner, relative or absolute, on a known or an unknown label |
| CodeGenerators.CodeGenerator.OpJmpAbs | xbyak/xbyak.h:2815-2829 | a jump to an address in either kind of buffer |
| CodeGenerators.CodeGenerator.Align | xbyak/xbyak.h:3925-3934 | padding to a power of two |
| CodeGenerators.CodeGenerator.Nop | xbyak/xbyak.h:3880-3919 | the multi-byte nop sequence of the given length |
| CodeGenerators.CodeGenerator.Ready | xbyak/xbyak.h:3808-3815 | refuses while a label is missing, otherwise applies the saved patches in order |
| LegacyEncoder.HeadDecodes | xbyak/xbyak.h:2424-2476 | an independent decoder reads back from prefixes, REX or REX2, escape bytes and opcode what the attributes and sizes ask for, said without the encoder |
| LegacyEncoder.RegistersDecode | xbyak/xbyak.h:2743-2750 | opRR: decoding gives the operand size, W, map, opcode, immediate and both registers by name, if and only if no register is lost: no vector register above 15 without REX2, and no ah, ch, dh or bh beside a 64-bit register, one above 7, spl, bpl, sil or dil |
| LegacyEncoder.MemoryDecodes | xbyak/xbyak.h:2751-2762 | opMR: address, register, sizes and immediate come back under the same condition on the operands, address registers above 7 included; displacements relative to rip, labels included, count from the byte after the immediate |
| LegacyEncoder.SameSizeIsNamed | xbyak/xbyak.h:2905-2910 | for general registers of one size the ABCDH check is enough: everything accepted comes back |
| LegacyEncoder.HighByteIsLost | xbyak/xbyak.h:3135-3141 | movzx rax, ah is accepted and is byte for byte movzx rax, spl |
| LegacyEncoder.HighByteBesideAddress | xbyak/xbyak.h:2992-3000 | mov ah, [r8] is accepted and is byte for byte mov spl, [r8] |
| LegacyEncoder.SseDecodes | xbyak/xbyak.h:2862-2868 | opSSE: whatever is accepted decodes to its operands and immediate, on registers and memory |
| LegacyEncoder.ArithDecodes | xbyak/xbyak.h:3014-3025 | opOI: whichever of its forms is chosen, the processor carries out the operation on the given operand at its size, with a sign-extended value that stands for the immediate |
| LegacyEncoder.ArithAccepts | xbyak/xbyak.h:3004-3012 | on registers opOI refuses exactly non-general registers, NF or ZU modifiers, and immediates too big for 16 bits |
| LegacyEncoder.MoveDecodes | xbyak/xbyak.h:3678-3698 | mov with an immediate leaves the operand holding the immediate, for all of its five forms on registers and memory, including zero- and sign-extension |
| LegacySizes.RegistersSize | xbyak/xbyak.h:2439-2440 | opRR: by 66, W and the low bit of the opcode the processor works at the size of the wider of two general registers |
| LegacySizes.MemorySize | xbyak/xbyak.h:2439-2440 | opMR: and at the size of the register beside memory of no greater size |
| LegacySizes.RegistersAccept | xbyak/xbyak.h:2743-2750 | opRR refuses exactly NF and ZU, general registers of two sizes, ah to bh beside a register that needs a REX prefix, and REX2 before an opcode of three bytes |
| LegacySizes.SameSizeAccepts | xbyak/xbyak.h:2743-2750 | for general registers of one size ah to bh are refused exactly where the bytes would name another register |
| LegacySizes.MemoryAccepts | xbyak/xbyak.h:2751-2762 | opMR refuses exactly the modifiers, another size than the register, REX2 before an opcode of three bytes, a 64-bit absolute address and what opAddr refuses |
| LegacySizes.VectorsAccept | xbyak/xbyak.h:2862-2868 | opSSE refuses exactly vector registers above 15 and the modifiers |
| LegacySizes.ArithForm | xbyak/xbyak.h:3014-3025 | opOI chooses its shortest form: a one-byte immediate if that byte, sign-extended, is the immediate, otherwise the form of the accumulator |
| LegacySizes.SizeAccepts | xbyak/xbyak.h:3686-3692 | mov to memory takes exactly immediates of at most one bit more than the operand, or for 64 bits those of 32 signed bits |
| LegacySizes.MoveAccepts | xbyak/xbyak.h:3683-3694 | and refuses exactly other immediates, memory without a size and what opMR refuses |
| LegacySizes.MoveAcceptsRegister | xbyak/xbyak.h:3095-3113 | mov to a register refuses exactly what is no general register or has a modifier; the modifier of a 64-bit register is not looked at when the immediate has 32 bits |
| LegacySizes.MoveForm | xbyak/xbyak.h:3095-3113 | mov to a register chooses its shortest form among 32 bits zero-extended, 32 bits sign-extended and the full size |
| LegacyEncoder.LegacyEmitter.PutSSE | xbyak/xbyak.h:2862-2868 | opSSE, step by step: what it appends decodes to the instruction, operands and immediate that were asked for, and a label without an address is recorded with its place |
| LegacyEncoder.LegacyEmitter.PutOI | xbyak/xbyak.h:3014-3025 | opOI, step by step: what it appends decodes to the operation on the operand with a value that stands for the immediate |
| LegacyEncoder.LegacyEmitter.PutMov | xbyak/xbyak.h:3678-3698 | mov with an immediate, step by step: what it appends decodes to a move after which the operand holds the immediate |
| RegExps.AddValue | xbyak/xbyak.h:1635-1660 | operator+ adds the values of two expressions modulo 2^64 |
| RegExps.BuildKeepsValue | xbyak/xbyak.h:1552-1567 | every tree of registers, scales, numbers, labels, + and - that raises no error has the value of base + index*scale + disp of its RegExp |
| RegExps.OptimizeKeeps | xbyak/xbyak.h:1590-1599 | [reg*2] becoming [reg+reg] keeps the value and what verify() checks |
| RegExps.AddShape | xbyak/xbyak.h:1635-1660 | operator+ succeeds exactly when the two register lists together fit base and index |
| RegExps.BuildAccepts | xbyak/xbyak.h:1552-1567 | a tree builds if and only if its registers fit one base and one index, its scales are legal and rip stands alone |
| RegExps.VerifyAccepts | xbyak/xbyak.h:1610-1617 | verify() passes if and only if no esp or rsp must be an index and base and index have one width |
| RegExps.BaseIsGeneral | xbyak/xbyak.h:1612 | no expression has a vector register as base, so the first test of verify() never fails |
| AddressEncoder.DispFitsMeans | xbyak/xbyak.h:2670-2672 | the check of the upper bits holds exactly for 32-bit signed displacements |
| AddressEncoder.TailReads | xbyak/xbyak.h:2684-2702 | the written displacement times its factor is the one asked for, compressed or not |
| AddressEncoder.Divides | xbyak/xbyak.h:2694-2701 | for factors of 2^32 C division is exact on compressible displacements, negative ones too |
| AddressEncoder.ReadDispIs | xbyak/xbyak.h:2690-2702 | a decoder with another factor reads the displacement that was meant exactly when nothing was compressed |
| AddressEncoder.SIBDecodes | xbyak/xbyak.h:2658-2728 | setSIB refuses exactly displacements that do not fit 32 signed bits, and otherwise ModR/M, SIB and displacement decode to the same base, index, scale, displacement and register: all rbp, r13, rsp, r12, no-base and 5-bit cases |
| AddressEncoder.SIBDecodesAs | xbyak/xbyak.h:2658-2728 | the same against any other scaling factor, with the displacement that is then read |
| AddressEncoder.BuiltIsEncodable | xbyak/xbyak.h:1945-1963 | every built and verified expression, optimized or not, meets what the round trip asks for |
| AddressEncoder.PlaceValue | xbyak/xbyak.h:2658-2728 | the address the processor computes from the decoded operand is the value of the expression |
| AddressEncoder.OperandMeansTree | xbyak/xbyak.h:1964-1967 | from the C++ expression to the decoded bytes: the processor's address is what the expression says, modulo 2^64 |
| AddressEncoder.RelativeDecodes | xbyak/xbyak.h:2847-2858 | a rip-relative operand decodes as one, with its displacement |
| AddressEncoder.RelativeReaches | xbyak/xbyak.h:2852-2858 | [rip + n], [rip + pointer] and [rip + label + n]: the next instruction, with the immediate counted, plus the displacement is the address asked for |
| AddressEncoder.LabelIsFilled | xbyak/xbyak.h:2849-2850 | when a label gets its address, the four bytes after ModR/M are filled in and no other byte changes |
| AddressEncoder.AddrAccepts | xbyak/xbyak.h:2842-2861 | opAddr refuses exactly a vector index that is not taken, a pointer while the code may move, and displacements and distances that 32 signed bits do not hold |
| AddressEncoder.InDisp8Means | xbyak/xbyak.h:946 | a value passes for one byte if and only if that byte, sign-extended, is the value |
| AddressEncoder.OneDoesNotForceDisp32 | xbyak/xbyak.h:1991 | disp8N 1 yields a one-byte displacement, against the comment |
| AddressEncoder.AddressEmitter.PutL | xbyak/xbyak.h:3114-3134 | putL_inner for an operand: the distance if the label has an address, else zeros and a record of where they are |
| AddressEncoder.OperandIsWritten | xbyak/xbyak.h:2842-2861 | opAddr emits nothing exactly for a 64-bit absolute address |
| AddressEncoder.AddressEmitter.SetSIB | xbyak/xbyak.h:2658-2728 | setSIB, writing what the round trip is about |
| AddressEncoder.AddressEmitter.OpAddr | xbyak/xbyak.h:2842-2861 | opAddr in its four modes, with and without a label |
| PrefixEncoder.VexDecodes | xbyak/xbyak.h:2527-2552 | the 2- and 3-byte VEX forms decode to register bits, vvvv, L, W, opcode, and the mandatory prefix (66, F3, F2) and opcode map (0F, 0F38, 0F3A, 5, 6) of the attributes |
| PrefixEncoder.EvexDecodes | xbyak/xbyak.h:2571-2625 | EVEX decodes to all 5-bit register numbers, mask, zeroing only with a mask, broadcast or rounding, length, W, opcode, and the mandatory prefix and opcode map of the attributes |
| PrefixEncoder.ControlFits | xbyak/xbyak.h:2586-2614 | the length or rounding field fits its two bits |
| PrefixEncoder.Disp8NIsTuple | xbyak/xbyak.h:2599-2613 | disp8N is the factor of the tuple type, for vectors of 128, 256 and 512 bits |
| PrefixEncoder.Disp8NDivides | xbyak/xbyak.h:2599-2613 | disp8N is a power of two that divides 2^32 |
| PrefixMeanings.RegisterFormDecodes | xbyak/xbyak.h:3193-3202 | opVex on registers: the whole instruction decodes to what the operands ask for, said without the encoder: all register numbers, the one mask, zeroing under a mask, the one rounding or the length of the widest operand |
| PrefixMeanings.MemoryFormDecodes | xbyak/xbyak.h:3165-3203 | opVex on memory: the whole instruction, immediate, rip-relative and label operands included, decodes to what the operands ask for if and only if they are Lossless |
| PrefixMeanings.RegistersAccept | xbyak/xbyak.h:3193-3202 | on registers opVex refuses exactly operands that only EVEX holds where there is no EVEX form, two masks, two roundings, and a rounding the instruction does not have |
| PrefixMeanings.MemoryAccepts | xbyak/xbyak.h:3165-3190 | beside memory, the address apart, it refuses exactly zeroing on a store, a mask or broadcast the instruction does not have, and the same as on registers, but for a second mask beside a masked address |
| PrefixMeanings.TupleIs | xbyak/xbyak.h:2597-2613 | the displacement is read back exactly when the widths suit the tuple type or the displacement is 0, has no base or is out of reach of one byte |
| PrefixMeanings.CompressesIs | xbyak/xbyak.h:2684-2702 | setSIB compresses exactly the multiples of the factor between -128 and 127 times it |
| PrefixMeanings.OrdinaryIsLossless | xbyak/xbyak.h:3165-3203 | with a vector operand, no tile register and no modifier in vain: lossless if and only if the address is not a 64-bit absolute one and its index fits the format |
| PrefixMeanings.RegisterFormIsInjective | xbyak/xbyak.h:3193-3202 | two sets of register operands with the same bytes have the same register numbers, mask, zeroing, and length or rounding |
| PrefixMeanings.MemoryFormIsInjective | xbyak/xbyak.h:3165-3203 | two lossless sets of operands with the same bytes ask for the same and have the same base, index, scale and displacement |
| PrefixMeanings.ZeroIsDropped | xbyak/xbyak.h:3167-3169 | for all operands: zeroing that only the memory operand asks for changes no byte |
| PrefixMeanings.MaskIsDropped | xbyak/xbyak.h:2617 | for all operands: beside a masked memory operand a mask on the register changes no byte |
| PrefixMeanings.VaddpsMerges | xbyak/xbyak.h:3169 | vaddps zmm1{k1}, zmm2, [rax]{z} is accepted and is byte for byte the merging instruction |
| PrefixMeanings.VmovapsForgets | xbyak/xbyak.h:2617 | vmovaps [rax]{k1}, zmm0{k2} is accepted and is byte for byte the instruction without k2 |
| PrefixMeanings.RoundingIsAccepted | xbyak/xbyak.h:2587-2595 | a rounding modifier beside memory is accepted when T_ER_R allows it on registers |
| PrefixEmitters.PrefixEmitter.PutOpVex | xbyak/xbyak.h:3165-3203 | opVex, step by step: what it appends decodes to what the operands ask for, on memory if and only if they are Lossless, and a label without an address is recorded with its place |
| PrefixEncoder.GatherIndexIsLost | xbyak/xbyak.h:3184-3188 | a VEX gather with xmm17 as index is accepted and is byte for byte the one with xmm1 |
| PrefixEncoder.AbsoluteOperandIsLost | xbyak/xbyak.h:3165-3203 | opVex accepts [0x80000000] and emits no operand |
| StackFrames.PickClosed | xbyak/xbyak_util.h:2160-2181 | what the scan makes of each of the 14 table entries under every combination of reserved registers, in closed form |
| StackFrames.PicksLength | xbyak/xbyak_util.h:2160-2181 | how many entries the scan skips |
| StackFrames.PicksDistinct | xbyak/xbyak_util.h:2160-2181 | registers handed out are pairwise distinct and never rax, rsp or reserved |
| StackFrames.ScanStays | xbyak/xbyak_util.h:2166-2167 | the scan never runs off the table, however many registers are asked for within the limit |
| StackFrames.GivenIsSound | xbyak/xbyak_util.h:2052-2058 | p and t are pairwise distinct, never rax, rsp or a reserved register, and every callee-saved one is in saveRegs_ |
| StackFrames.ParameterIs | xbyak/xbyak_util.h:2053-2055 | p[i] comes from table entry i |
| StackFrames.SavedIs | xbyak/xbyak_util.h:2008-2014 | exactly which registers the filling loop puts into saveRegs_ |
| StackFrames.SavedDistinct | xbyak/xbyak_util.h:1993-2014 | saveRegs_ has no register twice and starts with rbp when rbp was pushed early |
| StackFrames.SaveRegsFit | xbyak/xbyak_util.h:1888-1903 | saveRegs_ never overflows |
| StackFrames.SavedExactly | xbyak/xbyak_util.h:1990-2014 | saved are exactly the reserved callee-saved registers, r30 and r31 on demand, and those within the number of registers in use |
| StackFrames.PickedIsSaved | xbyak/xbyak_util.h:1991-2014 | every callee-saved register handed out is saved |
| StackFrames.UsedIsSaved | xbyak/xbyak_util.h:2008-2014 | every reserved callee-saved register is saved |
| StackFrames.PushesRun | xbyak/xbyak_util.h:2015-2030 | the pushes execute, every push2 with rsp 16-byte aligned, and store each register in its own slot |
| StackFrames.PopsRun | xbyak/xbyak_util.h:2085-2099 | the pops execute, every pop2 with rsp 16-byte aligned, and load each register from its slot |
| StackFrames.PopsMirrorPushes | xbyak/xbyak_util.h:2086-2099 | close() pops exactly the reverse of the grouping of the constructor, with or without the early rbp, for every number of saved registers |
| StackFrames.FrameIsAligned | xbyak/xbyak_util.h:2031-2051 | if anything is reserved, the body starts 16-byte aligned with stackSizeByte bytes below the aligned vector slots |
| StackFrames.VectorsAligned | xbyak/xbyak_util.h:2031-2044 | the vector slots are 16-byte aligned, for movaps |
| StackFrames.MovedIsArgument | xbyak/xbyak_util.h:2059-2065 | after the replacing moves p[i] holds the i-th argument, even if its own register is reserved |
| StackFrames.PrologPrepares | xbyak/xbyak_util.h:1990-2067 | the prolog runs without a fault, stores every saved register and vector, leaves the i-th argument of the convention in p[i], and as a frame pointer rbp at the saved rbp, next to the return address |
| StackFrames.FrameIsSmall | xbyak/xbyak_util.h:2031-2051 | and nothing is reserved beyond rounding the local area and aligning the vectors |
| StackFrames.FrameInStyle | xbyak/xbyak_util.h:1994-2099 | push2 and pop2 only with UsePUSH2, the hint exactly with UsePPX, vmovaps exactly with NoVzeroupper |
| StackFrames.NeverMixes | xbyak/xbyak_util.h:1966-1973 | no legacy SSE move meets dirty upper halves, and UseAVX leaves them clean unless NoVzeroupper is given |
| StackFrames.KeepsCallingConvention | xbyak/xbyak_util.h:1936-2101 | for all accepted options, every local size and every body that keeps rsp and stays in its area and registers, prolog, body and close return rsp and every callee-saved register (r30, r31 and the Win64 xmm included) to their entry values and leave rax, memory and the return address alone |
| StackFrames.FrameNeedsRbp | xbyak/xbyak_util.h:1867 | in every flag word UseRBPAsFramePointer contains UseRBP |
| StackFrames.FlagsAre | xbyak/xbyak_util.h:1862-1882 | which bit of the argument word reserves, declares or selects what |
| StackFrames.AcceptsExactly | xbyak/xbyak_util.h:1951-1990 | accepted are exactly up to four parameters, no more registers than the scan can hand out, and vector registers that the declared encoding has |
| StackFrames.EveryFlagWordKeeps | xbyak/xbyak_util.h:1936-2101 | the same for every argument word the constructor accepts, and with UseRBPAsFramePointer the body finds [rbp] and [rbp+8] holding the caller's rbp and the return address |
| StackFrames.RegistersRestored | xbyak/xbyak_util.h:2084-2099 | the general registers after the pops |
| StackFrames.VectorsRestored | xbyak/xbyak_util.h:2077-2083 | the vector registers after the loads |
| StackFrames.StackFrame.constructor | xbyak/xbyak_util.h:1936-2068 | accepts exactly the options the source accepts and emits exactly the prolog the theorem is about |
| StackFrames.StackFrame.Check | xbyak/xbyak_util.h:1951-1990 | the errors, and the number of xmm registers to save |
| StackFrames.StackFrame.CountUse | xbyak/xbyak_util.h:1976-1989 | the number of reserved registers |
| StackFrames.StackFrame.Build | xbyak/xbyak_util.h:1990-2067 | the part of the constructor behind the checks |
| StackFrames.StackFrame.Save | xbyak/xbyak_util.h:1991-2030 | fills saveRegs_ and pushes it, rbp first |
| StackFrames.StackFrame.Fill | xbyak/xbyak_util.h:2004-2014 | the loop over the callee-saved part of the table |
| StackFrames.StackFrame.PushRest | xbyak/xbyak_util.h:2015-2030 | the pushing loop |
| StackFrames.StackFrame.Locals | xbyak/xbyak_util.h:2031-2051 | P_, vecPos_ and the stores of the vector registers |
| StackFrames.StackFrame.GetRegIdx | xbyak/xbyak_util.h:2160-2181 | the scan, with its inner loop, returns the next pick and position |
| StackFrames.StackFrame.Assign | xbyak/xbyak_util.h:2052-2058 | pTbl_ and tTbl_ hold the picks in order |
| StackFrames.StackFrame.Replace | xbyak/xbyak_util.h:2059-2065 | the replacing moves |
| StackFrames.StackFrame.Close | xbyak/xbyak_util.h:2073-2101 | emits exactly the epilog the theorem is about |
| StackFrames.StackFrame.PopAll | xbyak/xbyak_util.h:2085-2099 | the popping loop |
| Packing.GetIs | xbyak/xbyak_util.h:943-947 | get_a reads element idx of the packed number |
| Packing.SetIs | xbyak/xbyak_util.h:935-941 | set_a changes its element and no other |
| Packing.SlotsDetermine | xbyak/xbyak_util.h:930-932 | the elements determine the number |
| CpuMasks.AppendRefinesSet | xbyak/xbyak_util.h:999-1043 | append succeeds exactly when the std::set version does and the larger set can be held; then both hold the same set, and unused elements stay zero |
| CpuMasks.ViewShape | xbyak/xbyak_util.h:912-924 | which sets have which form: intervals exactly when the first two elements are neighbours, at most N values or N/2 runs |
| CpuMasks.UndoAppend | xbyak/xbyak_util.h:999-1043 | every mask but the empty one comes from appending its greatest element to a smaller one |
| CpuMasks.CanonicalIsUnique | xbyak/xbyak_util.h:912-924 | a set has one representation |
| CpuMasks.BuildAccepts | xbyak/xbyak_util.h:999-1043 | append builds exactly the sets that start with two neighbours and have at most N/2 runs, or have at most N elements |
| CpuMasks.ToU64Determines | xbyak/xbyak_util.h:990 | to_u64 is equal exactly when all three fields are |
| CpuText.DecimalText | xbyak/xbyak_util.h:863-872 | the decimal text of a number has its value |
| CpuText.TextIsPlain | xbyak/xbyak_util.h:863-872 | it has no leading zeros |
| CpuText.TextIsOnly | xbyak/xbyak_util.h:863-872 | it is the only text with that value and without leading zeros |
| CpuText.ReadsNumber | xbyak/xbyak_util.h:886-888 | strtoul reads a printed number back and stops behind it |
| CpuText.ReadsSigned | xbyak/xbyak_util.h:886-888 | in general strtoul reads white space, a sign and digits, modulo 2^32, and saturates |
| CpuText.ParseStep | xbyak/xbyak_util.h:881-899 | what one round of the loop of setStr reads or refuses |
| CpuText.PrintMore | xbyak/xbyak_util.h:1065-1084 | one more item goes behind a comma |
| CpuText.ParsePrint | xbyak/xbyak_util.h:877-901 | setStr reads exactly the items that were printed |
| CpuMaskTexts.ApplySingles | xbyak/xbyak_util.h:894-896 | reading single values is appending them |
| CpuMaskTexts.ApplyPairs | xbyak/xbyak_util.h:889-893 | reading the printed intervals rebuilds the packed pairs |
| CpuMaskTexts.SetSpanIs | xbyak/xbyak_util.h:1155-1163 | appendRange of the std::set version adds the whole span |
| CpuMaskTexts.RangeAppends | xbyak/xbyak_util.h:1045-1055 | appendRange of the compact version takes exactly non-empty ranges below the limit into an empty mask or behind intervals while there is room, and adds the span |
| CpuMaskTexts.TextRoundTrip | xbyak/xbyak_util.h:1058-1085 | setStr(getStr(m)) into an empty mask succeeds and gives m, and the std::set version reads the same set from the same text |
| CpuMaskTexts.SetItemsRead | xbyak/xbyak_util.h:1169-1199 | the std::set version reads back what it prints |
| CpuMaskTexts.TextsAgree | xbyak/xbyak_util.h:1063-1085 | the two versions print the same text if and only if the mask has intervals or no two neighbours |
| CpuMaskTexts.CompactReads | xbyak/xbyak_util.h:1045-1055 | the compact version reads what the std::set version prints for the set of a mask if and only if the mask has intervals or no two neighbours |
| CpuMaskTexts.CompactRefusesSetText | xbyak/xbyak_util.h:1045-1055 | the std::set version prints 3,5-6 for a set that the compact one holds, and the compact one cannot read it |
| CpuMaskClasses.CpuMask.constructor | xbyak/xbyak_util.h:963 | a new mask is empty |
| CpuMaskClasses.CpuMask.Clear | xbyak/xbyak_util.h:985 | clear gives the empty mask |
| CpuMaskClasses.CpuMask.IsEmpty | xbyak/xbyak_util.h:986-989 | empty() holds of no other mask |
| CpuMaskClasses.CpuMask.SetA | xbyak/xbyak_util.h:935-941 | set_a in place |
| CpuMaskClasses.CpuMask.GetA | xbyak/xbyak_util.h:943-947 | get_a |
| CpuMaskClasses.CpuMask.Append | xbyak/xbyak_util.h:999-1043 | append in place; a refused element changes nothing |
| CpuMaskClasses.CpuMask.AppendRange | xbyak/xbyak_util.h:1045-1055 | appendRange in place |
| CpuMaskClasses.CpuMask.Size | xbyak/xbyak_util.h:1086-1095 | the number of elements of the set |
| CpuMaskClasses.CpuMask.Get | xbyak/xbyak_util.h:1097-1110 | the idx-th element of the set in increasing order |
| CpuMaskClasses.CpuMask.GetInRange | xbyak/xbyak_util.h:1101-1108 | the same among intervals |
| CpuMaskClasses.CpuMask.GetStr | xbyak/xbyak_util.h:1063-1085 | the text of the items |
| CpuMaskClasses.CpuMask.GetValues | xbyak/xbyak_util.h:1067-1073 | its first loop |
| CpuMaskClasses.CpuMask.GetIntervals | xbyak/xbyak_util.h:1074-1084 | its second loop |
| CpuMaskClasses.CpuMask.SetStr | xbyak/xbyak_util.h:877-901 | true exactly when the text parses and every item is accepted in turn; then the mask is the result |
| CpuMaskClasses.ReadItem | xbyak/xbyak_util.h:881-898 | reads one item of the text |
| CpuMaskClasses.BuildFrom | xbyak/xbyak_util.h:999-1043 | appending a sequence succeeds exactly for the sets that can be held, and then holds them |
| CpuMaskClasses.EqualityIsSetEquality | xbyak/xbyak_util.h:995 | operator== is equality of the sets |
| CpuMaskClasses.PlainCpuMask.AppendRange | xbyak/xbyak_util.h:1155-1163 | appendRange of the std::set version |
| CpuMaskClasses.PlainCpuMask.GetStr | xbyak/xbyak_util.h:1169-1199 | getStr of the std::set version, with its two flags |
| LabelNames.EnterAnonymous | xbyak/xbyak.h:2245-2258 | L("@@") gives up the key of the last @@ and defines the other, so that exactly one of @f and @b is ever defined and waiting references use the other |
| LabelNames.StepAgrees | xbyak/xbyak.h:2242-2301 | each call on the label maps agrees, errors included, with a table that numbers every @@ and every local scope |
| LabelNames.RunAgrees | xbyak/xbyak.h:2242-2301 | so does every sequence of calls |
| LabelNames.TableRunIs | xbyak/xbyak.h:2231-2301 | a sequence of calls succeeds if and only if it is legal, which is said of the sequence alone |
| LabelNames.EveryReferenceLeads | xbyak/xbyak.h:2231-2301 | after a successful run each reference is bound to the offset of the one definition it means, or waits if there is none |
| LabelNames.BackLabelBinds | xbyak/xbyak.h:2279-2284 | @b is the last @@ before it |
| LabelNames.ForwardLabelBinds | xbyak/xbyak.h:2285-2289 | @f is the next @@ after it |
| LabelNames.BackLabelNeedsOne | xbyak/xbyak.h:2282-2284 | @b without an @@ before it is an error |
| LabelLife.StepKeeps | xbyak/xbyak.h:2127-2192 | refCount is the number of attached Label objects of an id, an id is defined exactly while one is attached, and no id is both defined and pending: every operation keeps this |
| LabelLife.RunKeeps | xbyak/xbyak.h:2127-2192 | so does every error-free run |
| LabelLife.NextIdIsNew | xbyak/xbyak.h:2127-2131 | the next id is in no table and on no object |
| LabelLife.IdsAreNotReused | xbyak/xbyak.h:2127-2131 | ids are handed out in order, only to objects without one |
| LabelLife.IdsAreGivenOnce | xbyak/xbyak.h:2127-2131 | over whole runs: an id given to an object is one that no object had at any earlier time |
| LabelLife.DefinitionStays | xbyak/xbyak.h:2262-2275 | no operation moves a definition |
| LabelLife.OffsetStays | xbyak/xbyak.h:2323-2340 | while an attached object lives, its id stays defined at the same offset, whatever is copied or destroyed |
| LabelLife.OffsetStaysInRuns | xbyak/xbyak.h:2323-2340 | the same over whole runs |
| LabelLife.LabelIsHere | xbyak/xbyak.h:2262-2267 | over whole runs: L binds an object to the number of bytes emitted before it while the object lives, and what waited for it leads there |
| LabelLife.ReferenceLeadsHere | xbyak/xbyak.h:2293-2305 | and so does every later reference to the same id |
| LabelLife.AssignLWorks | xbyak/xbyak.h:2268-2275 | a reference after assignL(dst, src) is bound to src's offset if and only if dst had been referenced before |
| LabelLife.AssignedBeforeUse | xbyak/xbyak.h:2268-2275 | L(a), assignL(b, a), jmp(b) leaves the jump undefined |
| LabelManagers.StringLabels.constructor | xbyak/xbyak.h:2220-2230 | reset for string labels |
| LabelManagers.StringLabels.DefineInner | xbyak/xbyak.h:2132-2167 | defines a name and binds what waits for it; a redefinition changes nothing |
| LabelManagers.StringLabels.DefineSlabel | xbyak/xbyak.h:2242-2261 | the renaming of @@ and the choice of scope |
| LabelManagers.StringLabels.GetOffset | xbyak/xbyak.h:2276-2292 | the renaming of @f and @b and the lookup |
| LabelManagers.StringLabels.Reference | xbyak/xbyak.h:2276-2301 | a reference to a string label |
| LabelManagers.StringLabels.LeaveLocal | xbyak/xbyak.h:2235-2240 | closes a scope, and refuses while references wait in it or none is open |
| LabelManagers.StringLabels.Do | xbyak/xbyak.h:2231-2301 | one call; sequences of them are the runs above |
| LabelManagers.LabelObjects.constructor | xbyak/xbyak.h:2220-2230 | reset for label objects |
| LabelManagers.LabelObjects.DefineInner | xbyak/xbyak.h:2132-2167 | defines an id and binds what waits for it |
| LabelManagers.LabelObjects.Settle | xbyak/xbyak.h:2140-2166 | its loop |
| LabelManagers.LabelObjects.DefineClabel | xbyak/xbyak.h:2262-2267 | L on an object |
| LabelManagers.LabelObjects.AssignTo | xbyak/xbyak.h:2268-2275 | assignL |
| LabelManagers.LabelObjects.Reference | xbyak/xbyak.h:2293-2305 | a reference to an object |
| LabelManagers.LabelObjects.Do | xbyak/xbyak.h:2127-2340 | one operation; sequences of them are the runs above |

## Left out

- OS and hardware: memory protection, CPUID, sysfs and Windows topology, Profiler, Clock.
- xbyak_mnemonic.h and gen/: rows of attributes and opcodes, which are parameters here. That the table combines
  attributes and opcodes the way the encoders expect is a precondition (`OneMap`, `Proper`).
- Quantize.Quantizer.UDiv: divisors of 2^31 and more, or with an odd part of 2^30 and more, where int and ilog2 overflow in the source.
- Machine: the call stack is kept apart from data memory, so dest, the tape and mem_ cannot overlap it or the code;
  instructions take no time and the buffer limits of the samples do not exist.
- Brainfuck.CompilationPreservesMeaning: the code of the 32-bit variant; the two 64-bit variants of sample/bf.cpp differ
  in registers and in how the two callbacks are called.
- Brainfuck.Compiler.constructor: the 32-bit variant as well, and balanced sources only.
- ToyVm: jumps outside the program, empty programs and the printf format; that jumps at the level of bytes reach their
  labels is proved for the assembler and not repeated for this program.
- ToyVm.ToyMachine.Run: stops after a given number of rounds, because run() need not end.
- Assembler: buffers of 2 GiB and more; what a call that throws has already written; setSize and reset; absolute
  references to labels that assignL defines are outside the refinement (Differences.AssignedAddressIs says what they
  hold).
- Assembler: references waiting for one label are taken in insertion order; the order of the source's
  unordered_multimap is unspecified.
- RegExps, AddressEncoder: 32-bit mode; opMIB and addresses that must not be optimized.
- AddressEncoder.AddressEmitter.OpAddr: labels inside absolute (not rip-relative) addressing.
- LegacyEncoder: opROO and evexLeg (APX forms with three operands, NF, ND and ZU), the T_APX attribute, shifts,
  moffset forms of mov, push and pop.
- LegacyEncoder.ArithDecodes, LegacyEncoder.MoveDecodes: memory operands of 8 to 64 bits; larger ones are not arithmetic operands.
- PrefixEncoder: tile registers in addresses; that the processor's opcode tables give tuple type, immediate size and
  vector operands is a parameter of the decoder.
- StackFrames.KeepsCallingConvention: stackSizeByte is any natural number, without 32-bit overflow or negative values;
  memory is in 8-byte slots; vzeroupper keeps the low 128 bits; push2 a, b is push a, push b and pop2 a, b is pop a,
  pop b. The destructor only calls close.
- CpuMask: operator< (the two versions order differently); appendRange with ranges that getStr does not print;
  get_a and set_a are arithmetic on the packed number instead of bit operations; texts with embedded NUL.
- CpuMask: an element refused with an exception and one refused with false are the same failure.
- LabelManagers: one class per kind of label; reset() in the middle of a session.
- LabelManagers.StringLabels.DefineInner: the range errors of define_inner, which CodeGenerators.CodeGenerator.DefineInner has.
- LabelManagers.LabelObjects.DefineInner: the same.
- LabelManagers.LabelObjects.Settle: the same.
- Refinement.AutoGrowIsFixed: T_AUTO and T_SHORT absolute jumps (Differences.AutoKindIs says when they agree) and
  alignments that do not divide the page size, which a growing buffer refuses.
- FPU, MPX, AMX, segment and CCMP wrappers, toString, error texts, exception-less mode, sample/calc.cpp and
  sample/calc2.cpp: easy members or textbook machines.
