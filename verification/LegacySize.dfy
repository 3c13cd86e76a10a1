/** xbyak/xbyak.h: the operand size that the bytes of opRR and opMR have for the processor, and what the emitters
    without a vector prefix refuse. */
module LegacySizes {
  import opened AddressEncoder
  import opened Bytes
  import opened LegacyEncoder
  import opened RegExps
  import Prefixes = PrefixEncoder

  /** How many bits the operands have for the processor: 8 for an opcode of bytes, otherwise W goes before 66. */
  function SizeRead(d: Insn, byte: bool): int {
    if byte then 8 else if d.w == 1 then 64 else if d.f.p66 then 16 else 32
  }

  /** The opcode that was decoded: the given one, but for its low bit where that tells bytes from wider operands. */
  predicate OpcodeRead(d: Insn, ty: Type, code: u8, bit: int) {
    if HasSizeBit(ty) && code % 2 == 0 then d.opcode / 2 == code / 2 && (d.opcode % 2 == 0 <==> bit == 8) else d.opcode == code
  }

  /** The processor works at the size of the wider of two general registers: 16 bits by 66, 64 by W, 32 by neither, and
      8 by the low bit of the opcode; so imul ax, cx and imul eax, ecx differ. */
  lemma RegistersSize(r1: Operand, r2: Operand, ty: Type, code: u8, imm: seq<u8>, byteReg: bool)
    requires r1.Valid() && r2.Valid() && r1.kind == Gpr && r2.kind == Gpr && !ty.p66
    requires Proper(ty, SizedOpcode(ty, r1.bit, code)) && OpRR(r1, r2, ty, code).Some?
    ensures var d := Decode(OpRR(r1, r2, ty, code).value + imm, byteReg, ByteRegister(r2), |imm|);
      && d.Some? && OpcodeRead(d.value, ty, code, r1.bit)
      && (r1.bit != 8 || r2.bit != 8 ==> SizeRead(d.value, false) == if r1.bit < r2.bit then r2.bit else r1.bit)
  {
    hide Decode, OpRR, Proper, NameIn, MapOf, NumberIn, RexedRegs, Use2Regs, ByteRegister;
    RegistersBytes(r1, r2, ty, code, imm, byteReg);
  }

  /** And beside memory at the size of the register, for operands without a size and up to that size. */
  lemma MemorySize(m: Memory, r: Operand, ty: Type, code: u8, imm: seq<u8>, byteReg: bool, at: int, auto: bool, labels: Labels)
    requires Fits(InMemory(m)) && r.Valid() && r.kind == Gpr && m.bit <= r.bit && !ty.p66
    requires Proper(ty, SizedOpcode(ty, r.bit, code)) && OpMR(m, r, ty, code, |imm|, at, auto, labels).Some?
    ensures var d := Decode(OpMR(m, r, ty, code, |imm|, at, auto, labels).value + imm, byteReg, false, |imm|);
      && d.Some? && OpcodeRead(d.value, ty, code, r.bit) && (r.bit != 8 ==> SizeRead(d.value, false) == r.bit)
  {
    hide Decode, OpMR, Proper, NameIn, MapOf, NumberIn, PrefixedMem, Use2Mem, Fits, Width, Prefixes.PlaceFor;
    MemoryBytes(m, r, ty, code, imm, byteReg, at, auto, labels);
  }

  /** ah, ch, dh or bh beside a register that needs a REX prefix for its number or its name. */
  predicate Clashes(r1: Operand, r2: Operand) {
    r1.bit == 8 && !r1.ext8bit && 4 <= r1.idx < 8 && (r2.ext8bit || r2.idx >= 8)
  }

  /** A register that only REX2 can hold. */
  predicate Extended(r: Operand) { r.kind == Gpr && r.idx >= 16 }

  /** What opRR refuses: a modifier that it cannot express, general registers of two sizes, ah to bh beside a register
      that needs a REX prefix, and a REX2 prefix before an opcode of three bytes. */
  lemma RegistersAccept(r1: Operand, r2: Operand, ty: Type, code: u8)
    requires r1.Valid() && r2.Valid()
    ensures OpRR(r1, r2, ty, code).Some?
      <==>
        && !r1.flagged && !r2.flagged
        && (ty.diffSize || r1.kind != Gpr || r2.kind != Gpr || r1.bit == r2.bit)
        && (ty.abcdh || !(Clashes(r1, r2) || Clashes(r2, r1)))
        && !((Extended(r1) || Extended(r2)) && (ty.m0F38 || ty.m0F3A))
  {
    hide Marks, RexBytes, WriteCode, ModRM, NumbersRegs;
  }

  /** Among general registers of one size it refuses ah to bh exactly where the bytes would name another register. */
  lemma SameSizeAccepts(r1: Operand, r2: Operand, ty: Type, code: u8)
    requires r1.Valid() && r2.Valid() && r1.kind == Gpr && r2.kind == Gpr && r1.bit == r2.bit && !ty.abcdh
    ensures OpRR(r1, r2, ty, code).Some?
      <==>
        && !r1.flagged && !r2.flagged && !((Extended(r1) || Extended(r2)) && (ty.m0F38 || ty.m0F3A))
        && LegacyEncoder.Named(r1, RexedRegs(r1, r2), Use2Regs(r1, r2)) && LegacyEncoder.Named(r2, RexedRegs(r1, r2), Use2Regs(r1, r2))
  {
    RegistersAccept(r1, r2, ty, code);
    hide OpRR;
  }

  /** What opMR refuses: the modifiers, a memory operand of another size than the register, a REX2 prefix before an
      opcode of three bytes, a 64-bit absolute address, and an address that opAddr refuses. */
  lemma MemoryAccepts(m: Memory, r: Operand, ty: Type, code: u8, immSize: nat, at: int, auto: bool, labels: Labels)
    requires Fits(InMemory(m)) && r.Valid()
    ensures Placeable(m.e)
    ensures var rex2 := Extended(r) || (m.e.base.bit <= 64 && m.e.base.idx >= 16) || (m.e.index.bit <= 64 && m.e.index.idx >= 16);
      OpMR(m, r, ty, code, immSize, at, auto, labels).Some?
      <==>
        && !r.flagged && (ty.diffSize || r.bit > 64 || m.bit == 0 || m.bit == r.bit) && !(rex2 && (ty.m0F38 || ty.m0F3A))
        && (m.e.rip || m.e.base != NONE || m.e.index != NONE || m.e.disp < 0x8000_0000 || m.e.disp > 0xFFFF_FFFF_8000_0000)
        && EncodeAddr(m.e, r.idx, 0, false, at + |HeadMem(m, r, ty, code)|, immSize, auto, labels).Some?
  {
    hide Marks, RexBytes, WriteCode, NumbersMem, EncodeAddr, Width;
  }

  /** What opSSE refuses among vector and MMX registers: numbers above 15, which it has no prefix for. */
  lemma VectorsAccept(r: Operand, op: RegMem, ty: Type, code: u8, imm: Option<u8>, at: int, auto: bool, labels: Labels)
    requires r.Valid() && Fits(op) && op.Register? && r.kind in {Mmx, Xmm} && op.r.kind in {Mmx, Xmm}
    ensures OpSSE(r, op, ty, code, imm, at, auto, labels).Some? <==> !r.flagged && !op.r.flagged && r.idx < 16 && op.r.idx < 16
  {
    RegistersAccept(r, op.r, ty, code);
    hide OpRR;
  }

  /** The immediates mov takes for memory of n bytes or, from 64 bits on, for four. */
  predicate TakesImmediate(bit: nat, v: int) {
    match bit
    case 8 => -0x100 <= v < 0x100
    case 16 => -0x1_0000 <= v < 0x1_0000
    case 32 => -0x1_0000_0000 <= v < 0x1_0000_0000
    case _ => -0x8000_0000 <= v < 0x8000_0000
  }

  lemma SizeAccepts(bit: nat, imm: int)
    requires bit in {8, 16, 32, 64} && 0 <= imm < W64
    ensures MovSize(bit, imm) == if TakesImmediate(bit, SignedDisp(imm)) then Some(if bit == 64 then 4 else bit / 8) else None
  {
    RangesAre();
    DispFitsMeans(imm);
    RangeIs();
    hide DispFits, SignedDisp, Range;
  }

  /** What mov with an immediate refuses on memory: no size, an immediate that is too big, and what opMR refuses. */
  lemma MoveAccepts(m: Memory, imm: int, at: int, auto: bool, labels: Labels)
    requires Fits(InMemory(m)) && m.bit in {0, 8, 16, 32, 64} && 0 <= imm < W64
    ensures Placeable(m.e)
    ensures var n := if m.bit == 64 then 4 else m.bit / 8;
      MovImm(InMemory(m), imm, at, auto, labels).Some?
      <==>
        && m.bit != 0 && TakesImmediate(m.bit, SignedDisp(imm))
        && OpMR(m, Operand(Gpr, 0, m.bit, false, false), NO_TYPE, 0xC6, n, at, auto, labels).Some?
  {
    if m.bit != 0 { SizeAccepts(m.bit, imm); }
    hide OpMR, MovSize, TakesImmediate, SignedDisp, LE;
  }

  /** And on registers only what is no general register, or has a modifier. */
  lemma MoveAcceptsRegister(r: Operand, imm: int, at: int, auto: bool, labels: Labels)
    requires r.Valid() && 0 <= imm < W64
    ensures MovImm(Register(r), imm, at, auto, labels).Some?
        <==> r.kind == Gpr && (!r.flagged || (r.bit == 64 && imm < W32))
  {
    hide Marks, RexBytes, LE, DispFits;
  }

  /** al, ax, eax or rax. */
  predicate Accumulator(op: RegMem) { op.Register? && op.r.idx == 0 }

  /** An immediate that one sign-extended byte stands for. */
  predicate OneByte(imm: int) { Signed(LE(imm, 1)) == Signed(LE(imm, 4)) }

  /** The opcode opOI should choose: a form with a one-byte immediate if there is one, otherwise the form for the
      accumulator if it is the operand. */
  function ArithOpcode(op: RegMem, imm: int, ext: int): int {
    if op.Bit() == 8 then if Accumulator(op) then 8 * ext + 4 else 0x80
    else if OneByte(imm) then 0x83
    else if Accumulator(op) then 8 * ext + 5
    else 0x81
  }

  /** It is the one the processor finds. */
  lemma ArithForm(op: RegMem, imm: int, ext: int, at: int, auto: bool, labels: Labels)
    requires Fits(op) && Sized(op) && 0 <= imm < W32 && 0 <= ext < 8 && OpOI(op, imm, ext, at, auto, labels).Some?
    ensures var h := DecodeHead(OpOI(op, imm, ext, at, auto, labels).value);
      h.Some? && h.value.opmap == 0 && h.value.opcode == ArithOpcode(op, imm, ext)
  {
    hide LE, ShortOI, LongOI, DecodeHead, Signed, InDisp8, Relaxed16;
    InDisp8Means(imm);
    var n := ImmBit(op, imm).value;
    if ShortForm(op, n) {
      ShortArithForm(op.r, ext, n, LE(imm, n / 8));
    } else {
      HasSize(op, ext, n, at, auto, labels);
      if op.Register? {
        LongAnywhere(op.r, ext, n, at, auto, labels);
        LongIsRR(op.r, ext, n);
      }
      LongArithForm(op, ext, n, LE(imm, n / 8), at, auto, labels);
    }
  }

  lemma ShortArithForm(r: Operand, ext: int, n: int, tail: seq<u8>)
    requires r.Valid() && r.kind == Gpr && 0 <= ext < 8 && ShortOI(r, ext, n).Some?
    ensures var h := DecodeHead(ShortOI(r, ext, n).value + tail);
      h.Some? && h.value.opmap == 0 && h.value.opcode == if n == 8 then 8 * ext + 4 else 8 * ext + 5
  {
    hide DecodeHead, RexRegs, NameIn;
    SingleDecodes(r, ShortOpcode(ext, n), tail);
  }

  lemma LongArithForm(op: RegMem, ext: int, n: int, tail: seq<u8>, at: int, auto: bool, labels: Labels)
    requires Fits(op) && op.Bit() in {8, 16, 32, 64} && n in {8, 16, 32} && n <= op.Bit() && (n == 16 ==> op.Bit() == 16)
    requires 0 <= ext < 8 && |tail| == n / 8 && LongOI(op, ext, n, at, auto, labels).Some?
    ensures var h := DecodeHead(LongOI(op, ext, n, at, auto, labels).value + tail);
      h.Some? && h.value.opmap == 0 && h.value.opcode == if op.Bit() == 8 then 0x80 else if n == 8 then 0x83 else 0x81
  {
    hide DecodeHead, LongOI, OpRR, OpMR, EncodeAddr, ModRM, HeadRegs, HeadMem, NumbersRegs, NumbersMem, BitsOf, Width, Use2Regs, Use2Mem, Proper;
    var bit := op.Bit();
    var r := Operand(Gpr, ext, bit, false, false);
    match op
    case Register(r2) =>
      LongAnywhere(r2, ext, n, at, auto, labels);
      LongIsRR(r2, ext, n);
      GroupProper(bit, true, n);
      OpRRIs(r, r2, NO_TYPE.(abcdh := true), GroupCode(bit, n), tail);
      HeadRegsDecodes(r, r2, NO_TYPE.(abcdh := true), GroupCode(bit, n), [ModRM(3, ext, r2.idx)] + tail);
    case InMemory(m) =>
      LongIsMR(m, ext, n, at, auto, labels);
      GroupProper(bit, false, n);
      var a := OpMRIs(m, r, NO_TYPE, GroupCode(bit, n), tail, at, auto, labels);
      HeadMemDecodes(m, r, NO_TYPE, GroupCode(bit, n), a + tail);
  }

  /** mov of an immediate to a register takes the shortest form: 32 bits for one that zero-extension completes, the
      sign-extended form for a negative one of 32 bits, all 64 otherwise. */
  lemma MoveForm(r: Operand, imm: int)
    requires r.Valid() && r.kind == Gpr && 0 <= imm < W64 && MovRegister(r, imm).Some?
    ensures var h := DecodeHead(MovRegister(r, imm).value);
      && h.Some? && h.value.opmap == 0
      && if r.bit == 64 && imm < W32 then h.value.opcode / 8 == 0x17 && |h.value.rest| == 4
         else if r.bit == 64 && -0x8000_0000 <= SignedDisp(imm) < 0 then h.value.opcode == 0xC7 && |h.value.rest| == 5
         else h.value.opcode / 8 == (if r.bit == 8 then 0x16 else 0x17) && |h.value.rest| == r.bit / 8
  {
    hide DecodeHead, LE, RexRegs, NameIn, DispFits, MovRegister, SignedDisp, NameOf;
    RangeIs();
    DispFitsMeans(imm);
    SignedIs(imm);
    MovRegisterIs(r, imm);
    var low := Operand(Gpr, r.idx, 32, false, false);
    var code := (if r.bit == 8 then 0xB0 else 0xB8) + r.idx % 8;
    if r.bit == 64 && imm < W32 {
      SingleDecodes(low, code, LE(imm, 4));
    } else if r.bit == 64 && DispFits(imm) {
      var p := RexRegs(r, NO_REG, NO_TYPE).value.0 + [0xC7];
      assert p + [0xC0 + r.idx % 8] + LE(imm, 4) == p + ([0xC0 + r.idx % 8] + LE(imm, 4));
      SingleDecodes(r, 0xC7, [0xC0 + r.idx % 8] + LE(imm, 4));
    } else {
      SingleDecodes(r, code, LE(imm, r.bit / 8));
    }
  }

  lemma SignedIs(imm: int)
    requires 0 <= imm < W64
    ensures SignedDisp(imm) >= 0 ==> SignedDisp(imm) == imm
  {}
}
