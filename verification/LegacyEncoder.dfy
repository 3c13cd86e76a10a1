/** xbyak/xbyak.h: rex, rex2 and the emitters without a vector prefix (opRR, opMR, opRO, opRext, opSSE, opOI and
    mov with an immediate) in 64-bit mode, against a decoder written from the Intel SDM, volume 2A, sections 2.1
    and 2.2.1, and the REX2 prefix of Intel APX. */
module LegacyEncoder {
  import Arith
  import opened AddressEncoder
  import opened Bytes
  import opened RegExps
  import Prefixes = PrefixEncoder

  datatype Kind = Absent | Gpr | Mmx | Xmm

  /** A register operand. ext8bit marks spl, bpl, sil and dil, flagged one with the NF or ZU modifier. */
  datatype Operand = Operand(kind: Kind, idx: int, bit: int, ext8bit: bool, flagged: bool) {
    predicate Valid() {
      && 0 <= idx < 32 && (ext8bit ==> kind == Gpr && bit == 8 && 4 <= idx < 8)
      && (match kind
          case Absent => idx == 0 && bit == 0
          case Gpr => bit in {8, 16, 32, 64}
          case Mmx => bit == 64 && idx < 8
          case Xmm => bit == 128)
    }
    predicate Wide() { kind == Gpr && bit == 64 }
    predicate UsesRex2() { kind == Gpr && idx / 16 % 2 == 1 }
    /** ah, ch, dh and bh. */
    predicate High8bit() { bit == 8 && !ext8bit && 4 <= idx < 8 }
  }

  /** A memory operand and its size in bits, 0 if none is given. */
  datatype Memory = Memory(e: RegExp, bit: nat)

  datatype RegMem = Register(r: Operand) | InMemory(m: Memory) {
    function Bit(): int { if Register? then r.bit else m.bit }
  }

  /** The attributes of an instruction; other stands for any further one below T_SENTRY. */
  datatype Type = Type(p66: bool, f3: bool, f2: bool, m0F: bool, m0F38: bool, m0F3A: bool, code1: bool, other: bool,
                       diffSize: bool, abcdh: bool) {
    predicate Plain() { !p66 && !f3 && !f2 && !m0F && !m0F38 && !m0F3A && !code1 && !other }
  }

  const NO_TYPE := Type(false, false, false, false, false, false, false, false, false, false)
  const NO_REG := Operand(Absent, 0, 0, false, false)

  function If(c: bool, b: u8): seq<u8> { if c then [b] else [] }

  predicate P66(ty: Type, bit1: int, bit2: int) {
    ty.p66 || (bit1 == 16 && bit2 != 32 && bit2 != 64) || (bit2 == 16 && bit1 != 32 && bit1 != 64)
  }

  function Marks(ty: Type, bit1: int, bit2: int, a67: bool): seq<u8> {
    If(P66(ty, bit1, bit2), 0x66) + If(ty.f2, 0xF2) + If(ty.f3, 0xF3) + If(a67, 0x67)
  }

  /** rexRXB: k is 8 for bit 3 of the register numbers, 16 for bit 4. */
  function RXB(k: int, top: bool, r: int, b: int, x: int): (v: int)
    requires k > 0
    ensures 0 <= v < 16
  {
    Prefixes.Bit(top) * 8 + r / k % 2 * 4 + x / k % 2 * 2 + b / k % 2
  }

  datatype Numbers = Numbers(w: bool, r: int, b: int, x: int)

  function RexBytes(n: Numbers, forced: bool, use2: bool, is0F: bool): seq<u8> {
    if use2 then [0xD5, RXB(16, is0F, n.r, n.b, n.x) * 16 + RXB(8, n.w, n.r, n.b, n.x)]
    else if RXB(8, n.w, n.r, n.b, n.x) != 0 || forced then [0x40 + RXB(8, n.w, n.r, n.b, n.x)]
    else []
  }

  /** rex on two registers: the prefixes, and whether REX2 was chosen. None is an error. */
  function RexRegs(op1: Operand, op2: Operand, ty: Type): Option<(seq<u8>, bool)> {
    if op1.flagged || op2.flagged || (Use2Regs(op1, op2) && (ty.m0F38 || ty.m0F3A)) then None
    else Some((Marks(ty, op1.bit, op2.bit, false)
               + RexBytes(NumbersRegs(op1, op2), op1.ext8bit || op2.ext8bit, Use2Regs(op1, op2), ty.m0F), Use2Regs(op1, op2)))
  }

  predicate Use2Regs(op1: Operand, op2: Operand) { op1.UsesRex2() || op2.UsesRex2() }

  function NumbersRegs(op1: Operand, op2: Operand): Numbers {
    Numbers(op1.Wide() || op2.Wide(), op2.idx, op1.idx, 0)
  }

  /** rex on a memory operand and a register. */
  function RexMem(m: Memory, r: Operand, ty: Type): Option<(seq<u8>, bool)> {
    if r.flagged || (Use2Mem(m, r) && (ty.m0F38 || ty.m0F3A)) then None
    else Some((Marks(ty, m.bit, r.bit, Width(m.e) == 32)
               + RexBytes(NumbersMem(m, r), r.ext8bit, Use2Mem(m, r), ty.m0F), Use2Mem(m, r)))
  }

  predicate Use2Mem(m: Memory, r: Operand) { r.UsesRex2() || Prefixes.UsesRex2(m.e) }

  function NumbersMem(m: Memory, r: Operand): Numbers {
    var e := Optimize(m.e);
    Numbers(r.Wide(), r.idx, e.base.idx, e.index.idx)
  }

  function Escape(ty: Type): seq<u8> {
    if ty.m0F then [0x0F] else if ty.m0F38 then [0x0F, 0x38] else if ty.m0F3A then [0x0F, 0x3A] else []
  }

  function Opcode(ty: Type, bit: int, code: u8): u8 {
    if (ty.Plain() || ty.code1) && bit != 8 && code % 2 == 0 then code + 1 else code
  }

  /** writeCode. */
  function WriteCode(ty: Type, bit: int, code: u8, rex2: bool): seq<u8> {
    (if rex2 then [] else Escape(ty)) + [Opcode(ty, bit, code)]
  }

  predicate BadCombination(r1: Operand, r2: Operand) {
    r1.High8bit() && (r2.ext8bit || r2.idx >= 8)
  }

  function OpRR(r1: Operand, r2: Operand, ty: Type, code: u8): Option<seq<u8>> {
    if !ty.diffSize && r1.kind == Gpr && r2.kind == Gpr && r1.bit != r2.bit then None
    else if !ty.abcdh && (BadCombination(r1, r2) || BadCombination(r2, r1)) then None
    else
      var p :- RexRegs(r2, r1, ty);
      Some(p.0 + WriteCode(ty, r1.bit, code, p.1) + [ModRM(3, r1.idx, r2.idx)])
  }

  /** opMR; immSize bytes of an immediate follow. */
  function OpMR(m: Memory, r: Operand, ty: Type, code: u8, immSize: nat, at: int, auto: bool, labels: Labels): Option<seq<u8>>
    requires Placeable(m.e)
  {
    if ModeOf(m.e) == Disp64 then None
    else if !ty.diffSize && r.bit <= 64 && m.bit > 0 && m.bit != r.bit then None
    else
      var p :- RexMem(m, r, ty);
      var head := p.0 + WriteCode(ty, r.bit, code, p.1);
      var a :- EncodeAddr(m.e, r.idx, 0, false, at + |head|, immSize, auto, labels);
      Some(head + a)
  }

  predicate Fits(op: RegMem) {
    match op
    case Register(r) => r.Valid()
    case InMemory(m) => Encodable(m.e) && Placeable(m.e) && m.e.index.bit != 8192
  }

  /** opRO for an operand of the right kind. */
  function OpRO(r: Operand, op: RegMem, ty: Type, code: u8, immSize: nat, at: int, auto: bool, labels: Labels): Option<seq<u8>>
    requires Fits(op)
  {
    match op
    case Register(r2) => OpRR(r, r2, ty, code)
    case InMemory(m) => OpMR(m, r, ty, code, immSize, at, auto, labels)
  }

  /** What is asked for: a 66 prefix if the instruction has one, or if an operand has 16 bits and none has 32 or 64. */
  predicate Has66(ty: Type, bit1: int, bit2: int) {
    ty.p66 || ((bit1 == 16 || bit2 == 16) && bit1 != 32 && bit2 != 32 && bit1 != 64 && bit2 != 64)
  }

  /** The low bit of the opcode tells bytes from wider operands, in instructions without attributes and with
      T_CODE1_IF1. */
  function SizedOpcode(ty: Type, bit: int, code: u8): u8 {
    if bit != 8 && HasSizeBit(ty) then code / 2 * 2 + 1 else code
  }

  predicate HasSizeBit(ty: Type) {
    ty.code1 || !(ty.p66 || ty.f3 || ty.f2 || ty.m0F || ty.m0F38 || ty.m0F3A || ty.other)
  }

  lemma AskedIs(ty: Type, bit1: int, bit2: int, code: u8)
    ensures P66(ty, bit1, bit2) == Has66(ty, bit1, bit2) && Opcode(ty, bit1, code) == SizedOpcode(ty, bit1, code)
  {}

  /** An opcode that neither is a prefix nor opens another map. */
  predicate Proper(ty: Type, code: u8) {
    && (ty.m0F ==> !ty.m0F38 && !ty.m0F3A && code != 0x38 && code != 0x3A) && !(ty.m0F38 && ty.m0F3A)
    && (Escape(ty) == [] ==> code !in {0x0F, 0x66, 0x67, 0xD5, 0xF2, 0xF3} && !(0x40 <= code < 0x50))
  }

  /** A register as the processor names it; High is ah, ch, dh or bh. */
  datatype Name = Low(n: int) | High(n: int)
  datatype Where = At(place: Place) | Is(name: Name)
  datatype Flags = Flags(p66: bool, f2: bool, f3: bool, a67: bool)
  datatype Insn = Insn(f: Flags, w: int, opmap: int, opcode: int, reg: Name, rm: Where, imm: seq<u8>)

  datatype RexBits = RexBits(present: bool, opmap: Option<int>, w: int, R: int, R4: int, X: int, X4: int, B: int, B4: int)
  datatype Head = Head(f: Flags, x: RexBits, opmap: int, opcode: int, rest: seq<u8>)

  function ExtensionIn(x: RexBits): Extension {
    Extension(x.B, x.B4, x.X, x.X4)
  }

  /** Legacy prefixes, in any order. */
  function Legacy(bs: seq<u8>, f: Flags): (Flags, seq<u8>) {
    if bs == [] then (f, bs)
    else if bs[0] == 0x66 then Legacy(bs[1..], f.(p66 := true))
    else if bs[0] == 0xF2 then Legacy(bs[1..], f.(f2 := true))
    else if bs[0] == 0xF3 then Legacy(bs[1..], f.(f3 := true))
    else if bs[0] == 0x67 then Legacy(bs[1..], f.(a67 := true))
    else (f, bs)
  }

  function DecodeRex(bs: seq<u8>): (RexBits, seq<u8>) {
    if |bs| > 0 && bs[0] / 16 == 4 then
      var p := bs[0];
      (RexBits(true, None, p / 8 % 2, p / 4 % 2, 0, p / 2 % 2, 0, p % 2, 0), bs[1..])
    else if |bs| > 1 && bs[0] == 0xD5 then
      var p := bs[1];
      (RexBits(true, Some(p / 128), p / 8 % 2, p / 4 % 2, p / 64 % 2, p / 2 % 2, p / 32 % 2, p % 2, p / 16 % 2), bs[2..])
    else (RexBits(false, None, 0, 0, 0, 0, 0, 0, 0), bs)
  }

  function DecodeHead(bs: seq<u8>): Option<Head> {
    var (f, b) := Legacy(bs, Flags(false, false, false, false));
    var (x, c) := DecodeRex(b);
    if c == [] then None
    else if x.opmap.Some? then Some(Head(f, x, x.opmap.value, c[0], c[1..]))
    else if c[0] != 0x0F then Some(Head(f, x, 0, c[0], c[1..]))
    else if |c| < 2 then None
    else if c[1] != 0x38 && c[1] != 0x3A then Some(Head(f, x, 1, c[1], c[2..]))
    else if |c| < 3 then None
    else Some(Head(f, x, if c[1] == 0x38 then 2 else 3, c[2], c[3..]))
  }

  /** The byte registers 4 to 7 are ah to bh without a REX or REX2 prefix, and spl to dil with one. */
  function NameIn(n: int, byte: bool, rexed: bool): Name {
    if byte && !rexed && 4 <= n < 8 then High(n) else Low(n)
  }

  /** What the opcode tables tell the processor is given: which operands are byte registers, and the bytes of the
      immediate. */
  function Decode(bs: seq<u8>, byteReg: bool, byteRm: bool, immSize: nat): Option<Insn> {
    var h :- DecodeHead(bs);
    DecodeOperands(h, byteReg, byteRm, immSize)
  }

  function DecodeOperands(h: Head, byteReg: bool, byteRm: bool, immSize: nat): Option<Insn> {
    if h.rest == [] then None
    else
      var x, rest := h.x, h.rest;
      var reg := NameIn(rest[0] / 8 % 8 + 8 * x.R + 16 * x.R4, byteReg, x.present);
      if rest[0] / 64 == 3 then
        if |rest| != 1 + immSize then None
        else
          var rm := NameIn(rest[0] % 8 + 8 * x.B + 16 * x.B4, byteRm, x.present);
          Some(Insn(h.f, x.w, h.opmap, h.opcode, reg, Is(rm), rest[1..]))
      else
        var place :- DecodePlace(rest, ExtensionIn(x), false, 1);
        if |rest| != place.size + immSize then None
        else Some(Insn(h.f, x.w, h.opmap, h.opcode, reg, At(place.(size := 0)), rest[place.size..]))
  }

  /** The register an operand is. */
  function NameOf(o: Operand): Name {
    if o.kind == Gpr && o.High8bit() then High(o.idx) else Low(o.idx)
  }

  predicate ByteRegister(o: Operand) { o.kind == Gpr && o.bit == 8 }

  function MapOf(ty: Type): int {
    if ty.m0F then 1 else if ty.m0F38 then 2 else if ty.m0F3A then 3 else 0
  }

  function BitsOf(n: Numbers, forced: bool, use2: bool, is0F: bool): RexBits {
    RexBits(RexBytes(n, forced, use2, is0F) != [], if use2 then Some(Prefixes.Bit(is0F)) else None, Prefixes.Bit(n.w),
            n.r / 8 % 2, if use2 then n.r / 16 % 2 else 0, n.x / 8 % 2, if use2 then n.x / 16 % 2 else 0,
            n.b / 8 % 2, if use2 then n.b / 16 % 2 else 0)
  }

  predicate IsPrefix(b: u8) { b in {0x66, 0x67, 0xF2, 0xF3} }

  lemma LegacyStep(c: bool, b: u8, rest: seq<u8>, f: Flags)
    requires IsPrefix(b)
    ensures Legacy(If(c, b) + rest, f)
         == Legacy(rest, if !c then f else if b == 0x66 then f.(p66 := true) else if b == 0x67 then f.(a67 := true)
                         else if b == 0xF2 then f.(f2 := true) else f.(f3 := true))
  {
    if c {
      var bs := If(c, b) + rest;
      assert bs[0] == b && bs[1..] == rest;
    } else {
      assert If(c, b) + rest == rest;
    }
  }

  lemma MarksDecode(ty: Type, bit1: int, bit2: int, a67: bool, rest: seq<u8>)
    requires rest != [] && !IsPrefix(rest[0])
    ensures Legacy(Marks(ty, bit1, bit2, a67) + rest, Flags(false, false, false, false))
         == (Flags(Has66(ty, bit1, bit2), ty.f2, ty.f3, a67), rest)
  {
    AskedIs(ty, bit1, bit2, 0);
    hide P66, Has66;
    var p := Has66(ty, bit1, bit2);
    var f0 := Flags(false, false, false, false);
    var d := If(a67, 0x67) + rest;
    var c := If(ty.f3, 0xF3) + d;
    var b := If(ty.f2, 0xF2) + c;
    assert Marks(ty, bit1, bit2, a67) + rest == If(p, 0x66) + b;
    hide Legacy, If;
    LegacyStep(p, 0x66, b, f0);
    LegacyStep(ty.f2, 0xF2, c, f0.(p66 := p));
    LegacyStep(ty.f3, 0xF3, d, f0.(p66 := p, f2 := ty.f2));
    LegacyStep(a67, 0x67, rest, f0.(p66 := p, f2 := ty.f2, f3 := ty.f3));
    LegacyStop(rest, Flags(p, ty.f2, ty.f3, a67));
  }

  lemma LegacyStop(rest: seq<u8>, f: Flags)
    requires rest != [] && !IsPrefix(rest[0])
    ensures Legacy(rest, f) == (f, rest)
  {}

  lemma RXBFields(k: int, top: bool, r: int, b: int, x: int)
    requires k > 0
    ensures var v := RXB(k, top, r, b, x);
      v / 8 == v / 8 % 2 == Prefixes.Bit(top) && v / 4 % 2 == r / k % 2 && v / 2 % 2 == x / k % 2 && v % 2 == b / k % 2
  {
    FourBits(Prefixes.Bit(top), r / k % 2, x / k % 2, b / k % 2);
  }

  lemma FourBits(t: int, i: int, j: int, l: int)
    requires 0 <= t < 2 && 0 <= i < 2 && 0 <= j < 2 && 0 <= l < 2
    ensures var v := t * 8 + i * 4 + j * 2 + l; v / 8 == v / 8 % 2 == t && v / 4 % 2 == i && v / 2 % 2 == j && v % 2 == l
  {
    var v := t * 8 + i * 4 + j * 2 + l;
    assert v / 2 == t * 4 + i * 2 + j;
    assert v / 4 == t * 2 + i;
    assert v / 8 == t;
  }

  lemma PayloadFields(top: int, low: int)
    requires 0 <= top < 16 && 0 <= low < 16
    ensures var p := top * 16 + low;
      && p / 128 == top / 8 && p / 64 % 2 == top / 4 % 2 && p / 32 % 2 == top / 2 % 2 && p / 16 % 2 == top % 2
      && p / 8 % 2 == low / 8 % 2 && p / 4 % 2 == low / 4 % 2 && p / 2 % 2 == low / 2 % 2 && p % 2 == low % 2
  {
    var p := top * 16 + low;
    assert p / 16 == top && p / 32 == top / 2 && p / 64 == top / 4 && p / 128 == top / 8;
    LowBit(p, 8, 2 * top, low);
    LowBit(p, 4, 4 * top, low);
    LowBit(p, 2, 8 * top, low);
    LowBit(p, 1, 16 * top, low);
  }

  lemma LowBit(p: int, k: int, t: int, low: int)
    requires k in {1, 2, 4, 8} && p == t * k + low && t % 2 == 0
    ensures p / k % 2 == low / k % 2
  {
    assert p / k == t + low / k;
  }

  lemma RexFields(low: int)
    requires 0 <= low < 16
    ensures var p := 0x40 + low;
      p / 16 == 4 && p / 8 % 2 == low / 8 && p / 4 % 2 == low / 4 % 2 && p / 2 % 2 == low / 2 % 2 && p % 2 == low % 2
  {}

  lemma RexDecodes(n: Numbers, forced: bool, use2: bool, is0F: bool, rest: seq<u8>)
    requires use2 || (rest != [] && rest[0] / 16 != 4 && rest[0] != 0xD5)
    ensures DecodeRex(RexBytes(n, forced, use2, is0F) + rest) == (BitsOf(n, forced, use2, is0F), rest)
  {
    var low, top := RXB(8, n.w, n.r, n.b, n.x), RXB(16, is0F, n.r, n.b, n.x);
    RXBFields(8, n.w, n.r, n.b, n.x);
    RXBFields(16, is0F, n.r, n.b, n.x);
    var bs := RexBytes(n, forced, use2, is0F) + rest;
    hide RXB, Prefixes.Bit;
    if use2 {
      var p := top * 16 + low;
      PayloadFields(top, low);
      assert RexBytes(n, forced, use2, is0F) == [0xD5, p];
      assert bs[0] == 0xD5 && bs[1] == p && bs[2..] == rest;
    } else if low != 0 || forced {
      RexFields(low);
      assert RexBytes(n, forced, use2, is0F) == [0x40 + low];
      assert bs[0] == 0x40 + low && bs[1..] == rest;
    } else {
      assert RexBytes(n, forced, use2, is0F) == [];
      assert bs == rest;
    }
  }

  /** Prefixes, escape bytes and opcode. */
  lemma HeadDecodes(ty: Type, bit1: int, bit2: int, a67: bool, n: Numbers, forced: bool, use2: bool, bit: int, code: u8,
                    rest: seq<u8>)
    requires Proper(ty, SizedOpcode(ty, bit, code)) && (use2 ==> !ty.m0F38 && !ty.m0F3A)
    ensures DecodeHead(Marks(ty, bit1, bit2, a67) + RexBytes(n, forced, use2, ty.m0F) + WriteCode(ty, bit, code, use2) + rest)
         == Some(Head(Flags(Has66(ty, bit1, bit2), ty.f2, ty.f3, a67), BitsOf(n, forced, use2, ty.m0F), MapOf(ty),
                      SizedOpcode(ty, bit, code), rest))
  {
    hide Has66, SizedOpcode, Marks, Type.Plain;
    var o := SizedOpcode(ty, bit, code);
    var c := WriteCode(ty, bit, code, use2) + rest;
    var b := RexBytes(n, forced, use2, ty.m0F) + c;
    var marks := Marks(ty, bit1, bit2, a67);
    assert marks + RexBytes(n, forced, use2, ty.m0F) + WriteCode(ty, bit, code, use2) + rest == marks + b;
    CodeStarts(ty, bit, code, use2, rest);
    RexStarts(n, forced, use2, ty.m0F, c);
    MarksDecode(ty, bit1, bit2, a67, b);
    RexDecodes(n, forced, use2, ty.m0F, c);
    hide RexBytes, Legacy, DecodeRex, WriteCode, Escape;
  }

  lemma CodeStarts(ty: Type, bit: int, code: u8, use2: bool, rest: seq<u8>)
    requires Proper(ty, SizedOpcode(ty, bit, code))
    ensures var c := WriteCode(ty, bit, code, use2) + rest; var o := SizedOpcode(ty, bit, code);
      && c != []
      && (!use2 ==> !IsPrefix(c[0]) && c[0] / 16 != 4 && c[0] != 0xD5)
      && (if use2 || Escape(ty) == [] then c[0] == o && c[1..] == rest && (!use2 ==> o != 0x0F)
          else if ty.m0F then |c| >= 2 && c[0] == 0x0F && c[1] == o && c[2..] == rest && o != 0x38 && o != 0x3A
          else |c| >= 3 && c[0] == 0x0F && c[1] == (if ty.m0F38 then 0x38 else 0x3A) && c[2] == o && c[3..] == rest)
  {
    AskedIs(ty, bit, 0, code);
    hide Opcode, SizedOpcode;
  }

  lemma RexStarts(n: Numbers, forced: bool, use2: bool, is0F: bool, c: seq<u8>)
    requires c != [] && (!use2 ==> !IsPrefix(c[0]))
    ensures var b := RexBytes(n, forced, use2, is0F) + c; b != [] && !IsPrefix(b[0])
  {
    hide RXB;
    var low := RXB(8, n.w, n.r, n.b, n.x);
    assert 0x40 <= 0x40 + low < 0x50;
  }

  /** A register number put together again from ModR/M and the extension bits. */
  function NumberIn(idx: int, use2: bool): int {
    idx % 8 + 8 * (idx / 8 % 2) + 16 * (if use2 then idx / 16 % 2 else 0)
  }

  lemma NumberBack(idx: int, use2: bool)
    requires 0 <= idx < 32
    ensures NumberIn(idx, use2) % 16 == idx % 16 && (NumberIn(idx, use2) == idx <==> idx < 16 || use2)
  {}

  /** Whether the register a decoder names is the one that was given: without REX2 bit 4 of a vector register has
      nowhere to go, and any REX or REX2 prefix turns ah, ch, dh and bh into spl, bpl, sil and dil. */
  predicate Named(o: Operand, rexed: bool, use2: bool) {
    && !(o.kind == Xmm && o.idx >= 16 && !use2)
    && !(o.kind == Gpr && o.High8bit() && rexed)
  }

  lemma NameBack(o: Operand, rexed: bool, use2: bool)
    requires o.Valid() && (o.ext8bit ==> rexed) && (o.UsesRex2() ==> use2)
    ensures NameIn(NumberIn(o.idx, use2), ByteRegister(o), rexed) == NameOf(o)
        <==> Named(o, rexed, use2)
  {
    NumberBack(o.idx, use2);
    if o.idx < 16 { assert o.idx / 16 % 2 == 0; } else { assert o.idx / 16 % 2 == 1; }
  }

  /** The instruction that is asked for: prefixes, operand width, map, opcode, and the registers by name. */
  function Meant(r: Operand, ty: Type, otherBit: int, a67: bool, w: bool, code: u8, digit: bool, rm: Where, imm: seq<u8>): Insn {
    Insn(Flags(Has66(ty, otherBit, r.bit), ty.f2, ty.f3, a67), Prefixes.Bit(w), MapOf(ty), SizedOpcode(ty, r.bit, code),
         if digit then Low(r.idx) else NameOf(r), rm, imm)
  }

  /** Bit 3 of the number is set. */
  predicate Upper(idx: int) { idx / 8 % 2 == 1 }

  /** Some register needs a REX or REX2 prefix: one of 64 bits, one with a number from 8 to 15 or above 23, spl, bpl,
      sil or dil, or a general register above 15. */
  predicate RexedRegs(r1: Operand, r2: Operand) {
    r1.Wide() || r2.Wide() || Upper(r1.idx) || Upper(r2.idx) || r1.ext8bit || r2.ext8bit || Use2Regs(r1, r2)
  }

  predicate RexedMem(m: Memory, r: Operand) {
    r.Wide() || Upper(r.idx) || r.ext8bit || Upper(m.e.base.idx) || Upper(m.e.index.idx) || Use2Mem(m, r)
  }

  lemma RexIsWritten(n: Numbers, forced: bool, use2: bool, is0F: bool)
    ensures RexBytes(n, forced, use2, is0F) != [] <==> use2 || forced || n.w || Upper(n.r) || Upper(n.b) || Upper(n.x)
  {
    FourBits(Prefixes.Bit(n.w), n.r / 8 % 2, n.x / 8 % 2, n.b / 8 % 2);
  }

  lemma RexedRegsIs(r1: Operand, r2: Operand, is0F: bool)
    ensures PrefixedRegs(r1, r2, is0F) <==> RexedRegs(r1, r2)
  {
    RexIsWritten(NumbersRegs(r2, r1), r2.ext8bit || r1.ext8bit, Use2Regs(r2, r1), is0F);
    hide RexBytes;
  }

  lemma RexedMemIs(m: Memory, r: Operand, is0F: bool)
    requires Encodable(m.e)
    ensures PrefixedMem(m, r, is0F) <==> RexedMem(m, r)
  {
    RexIsWritten(NumbersMem(m, r), r.ext8bit, Use2Mem(m, r), is0F);
    hide RexBytes, Upper;
    assert Optimize(m.e) == m.e || Optimize(m.e).base == Optimize(m.e).index == m.e.index;
    assert Optimize(m.e) != m.e ==> m.e.base == NONE;
    assert !Upper(0) by { UpperZero(); }
  }

  lemma UpperZero()
    ensures !Upper(0)
  {}

  predicate PrefixedRegs(r1: Operand, r2: Operand, is0F: bool) {
    RexBytes(NumbersRegs(r2, r1), r2.ext8bit || r1.ext8bit, Use2Regs(r2, r1), is0F) != []
  }

  function HeadRegs(r1: Operand, r2: Operand, ty: Type, code: u8): seq<u8> {
    Marks(ty, r2.bit, r1.bit, false) + RexBytes(NumbersRegs(r2, r1), r2.ext8bit || r1.ext8bit, Use2Regs(r2, r1), ty.m0F)
    + WriteCode(ty, r1.bit, code, Use2Regs(r2, r1))
  }

  lemma OpRRIs(r1: Operand, r2: Operand, ty: Type, code: u8, imm: seq<u8>)
    requires OpRR(r1, r2, ty, code).Some?
    ensures OpRR(r1, r2, ty, code).value + imm == HeadRegs(r1, r2, ty, code) + ([ModRM(3, r1.idx, r2.idx)] + imm)
    ensures Use2Regs(r2, r1) ==> !ty.m0F38 && !ty.m0F3A
  {
    hide Marks, RexBytes, WriteCode, ModRM;
  }

  lemma OperandsRegs(h: Head, r1: Operand, r2: Operand, imm: seq<u8>, byteReg: bool, byteRm: bool)
    requires h.rest == [ModRM(3, r1.idx, r2.idx)] + imm
    ensures var x := h.x;
      DecodeOperands(h, byteReg, byteRm, |imm|)
      == Some(Insn(h.f, x.w, h.opmap, h.opcode, NameIn(r1.idx % 8 + 8 * x.R + 16 * x.R4, byteReg, x.present),
                   Is(NameIn(r2.idx % 8 + 8 * x.B + 16 * x.B4, byteRm, x.present)), imm))
  {
    hide ModRM, NameIn;
    assert h.rest[1..] == imm;
  }

  /** opRR round trip: the bytes decode to the instruction that was asked for if and only if no register is lost. If
      digit, the register field holds a part of the opcode. */
  lemma RegistersDecode(r1: Operand, r2: Operand, ty: Type, code: u8, imm: seq<u8>, digit: bool)
    requires r1.Valid() && r2.Valid() && Proper(ty, SizedOpcode(ty, r1.bit, code)) && (digit ==> r1.idx < 8 && !r1.ext8bit)
    requires OpRR(r1, r2, ty, code).Some?
    ensures Decode(OpRR(r1, r2, ty, code).value + imm, !digit && ByteRegister(r1), ByteRegister(r2), |imm|)
         == Some(Meant(r1, ty, r2.bit, false, r1.Wide() || r2.Wide(), code, digit, Is(NameOf(r2)), imm))
        <==> (digit || Named(r1, RexedRegs(r1, r2), Use2Regs(r1, r2))) && Named(r2, RexedRegs(r1, r2), Use2Regs(r1, r2))
  {
    hide *;
    RegistersBytes(r1, r2, ty, code, imm, !digit && ByteRegister(r1));
    RegistersNamed(r1, r2, ty, code, imm, digit);
  }

  /** What the decoder makes of the bytes of opRR, the registers still by number. */
  lemma RegistersBytes(r1: Operand, r2: Operand, ty: Type, code: u8, imm: seq<u8>, byteReg: bool)
    requires r1.Valid() && r2.Valid() && Proper(ty, SizedOpcode(ty, r1.bit, code)) && OpRR(r1, r2, ty, code).Some?
    ensures var rexed, use2 := RexedRegs(r1, r2), Use2Regs(r1, r2);
      Decode(OpRR(r1, r2, ty, code).value + imm, byteReg, ByteRegister(r2), |imm|)
      == Some(Insn(Flags(Has66(ty, r2.bit, r1.bit), ty.f2, ty.f3, false), Prefixes.Bit(r1.Wide() || r2.Wide()), MapOf(ty),
                   SizedOpcode(ty, r1.bit, code), NameIn(NumberIn(r1.idx, use2), byteReg, rexed),
                   Is(NameIn(NumberIn(r2.idx, use2), ByteRegister(r2), rexed)), imm))
  {
    hide HeadRegs, OpRR, DecodeHead, DecodeOperands, SizedOpcode, Proper, Has66, MapOf, ModRM, RexBytes, NameIn, ByteRegister, Operand.Valid, RexedRegs;
    var rest := [ModRM(3, r1.idx, r2.idx)] + imm;
    OpRRIs(r1, r2, ty, code, imm);
    HeadRegsDecodes(r1, r2, ty, code, rest);
    RexedRegsIs(r1, r2, ty.m0F);
    var h := DecodeHead(HeadRegs(r1, r2, ty, code) + rest).value;
    OperandsRegs(h, r1, r2, imm, byteReg, ByteRegister(r2));
  }

  lemma RegistersNamed(r1: Operand, r2: Operand, ty: Type, code: u8, imm: seq<u8>, digit: bool)
    requires r1.Valid() && r2.Valid() && (digit ==> r1.idx < 8 && !r1.ext8bit)
    ensures var rexed, use2 := RexedRegs(r1, r2), Use2Regs(r1, r2);
      Insn(Flags(Has66(ty, r2.bit, r1.bit), ty.f2, ty.f3, false), Prefixes.Bit(r1.Wide() || r2.Wide()), MapOf(ty),
           SizedOpcode(ty, r1.bit, code), NameIn(NumberIn(r1.idx, use2), !digit && ByteRegister(r1), rexed),
           Is(NameIn(NumberIn(r2.idx, use2), ByteRegister(r2), rexed)), imm)
      == Meant(r1, ty, r2.bit, false, r1.Wide() || r2.Wide(), code, digit, Is(NameOf(r2)), imm)
      <==> (digit || Named(r1, rexed, use2)) && Named(r2, rexed, use2)
  {
    hide Has66, MapOf, SizedOpcode, NameIn, NumberIn, NameOf, Named, ByteRegister;
    if digit { DigitBack(r1, RexedRegs(r1, r2), Use2Regs(r1, r2)); } else { NameBack(r1, RexedRegs(r1, r2), Use2Regs(r1, r2)); }
    NameBack(r2, RexedRegs(r1, r2), Use2Regs(r1, r2));
  }

  lemma DigitBack(r: Operand, rexed: bool, use2: bool)
    requires r.Valid() && r.idx < 8
    ensures NameIn(NumberIn(r.idx, use2), false, rexed) == Low(r.idx)
  {}

  lemma RexedForced(n: Numbers, forced: bool, use2: bool, is0F: bool)
    ensures forced || use2 ==> RexBytes(n, forced, use2, is0F) != []
  {}

  lemma HeadRegsDecodes(r1: Operand, r2: Operand, ty: Type, code: u8, rest: seq<u8>)
    requires Proper(ty, SizedOpcode(ty, r1.bit, code)) && (Use2Regs(r2, r1) ==> !ty.m0F38 && !ty.m0F3A)
    ensures DecodeHead(HeadRegs(r1, r2, ty, code) + rest)
         == Some(Head(Flags(Has66(ty, r2.bit, r1.bit), ty.f2, ty.f3, false),
                      BitsOf(NumbersRegs(r2, r1), r2.ext8bit || r1.ext8bit, Use2Regs(r2, r1), ty.m0F), MapOf(ty),
                      SizedOpcode(ty, r1.bit, code), rest))
  {
    hide Marks, RexBytes, WriteCode, SizedOpcode, Has66, MapOf, BitsOf, Proper, DecodeHead, NumbersRegs, Use2Regs;
    HeadDecodes(ty, r2.bit, r1.bit, false, NumbersRegs(r2, r1), r2.ext8bit || r1.ext8bit, Use2Regs(r2, r1), r1.bit, code, rest);
  }

  predicate PrefixedMem(m: Memory, r: Operand, is0F: bool) {
    RexBytes(NumbersMem(m, r), r.ext8bit, Use2Mem(m, r), is0F) != []
  }

  function HeadMem(m: Memory, r: Operand, ty: Type, code: u8): seq<u8> {
    Marks(ty, m.bit, r.bit, Width(m.e) == 32) + RexBytes(NumbersMem(m, r), r.ext8bit, Use2Mem(m, r), ty.m0F)
    + WriteCode(ty, r.bit, code, Use2Mem(m, r))
  }

  lemma OpMRIs(m: Memory, r: Operand, ty: Type, code: u8, imm: seq<u8>, at: int, auto: bool, labels: Labels) returns (a: seq<u8>)
    requires Placeable(m.e) && OpMR(m, r, ty, code, |imm|, at, auto, labels).Some?
    ensures OpMR(m, r, ty, code, |imm|, at, auto, labels).value + imm == HeadMem(m, r, ty, code) + (a + imm)
    ensures Some(a) == EncodeAddr(m.e, r.idx, 0, false, at + |HeadMem(m, r, ty, code)|, |imm|, auto, labels)
    ensures ModeOf(m.e) != Disp64 && (Use2Mem(m, r) ==> !ty.m0F38 && !ty.m0F3A)
  {
    hide Marks, RexBytes, WriteCode, EncodeAddr, Use2Mem, NumbersMem, ModeOf, Width;
    a := EncodeAddr(m.e, r.idx, 0, false, at + |HeadMem(m, r, ty, code)|, |imm|, auto, labels).value;
  }

  lemma HeadMemDecodes(m: Memory, r: Operand, ty: Type, code: u8, rest: seq<u8>)
    requires Proper(ty, SizedOpcode(ty, r.bit, code)) && (Use2Mem(m, r) ==> !ty.m0F38 && !ty.m0F3A)
    ensures DecodeHead(HeadMem(m, r, ty, code) + rest)
         == Some(Head(Flags(Has66(ty, m.bit, r.bit), ty.f2, ty.f3, Width(m.e) == 32),
                      BitsOf(NumbersMem(m, r), r.ext8bit, Use2Mem(m, r), ty.m0F), MapOf(ty), SizedOpcode(ty, r.bit, code), rest))
  {
    hide Marks, RexBytes, WriteCode, SizedOpcode, Has66, MapOf, BitsOf, Proper, DecodeHead, NumbersMem, Use2Mem, Width;
    HeadDecodes(ty, m.bit, r.bit, Width(m.e) == 32, NumbersMem(m, r), r.ext8bit, Use2Mem(m, r), r.bit, code, rest);
  }

  lemma OperandsMem(h: Head, a: seq<u8>, reg: int, place: Place, imm: seq<u8>, byteReg: bool)
    requires h.rest == a + imm && |a + imm| > 0 && (a + imm)[0] / 64 != 3 && (a + imm)[0] / 8 % 8 == reg
    requires DecodePlace(a + imm, ExtensionIn(h.x), false, 1) == Some(place) && place.size == |a|
    ensures DecodeOperands(h, byteReg, false, |imm|)
         == Some(Insn(h.f, h.x.w, h.opmap, h.opcode, NameIn(reg + 8 * h.x.R + 16 * h.x.R4, byteReg, h.x.present),
                      At(place.(size := 0)), imm))
  {
    hide DecodePlace, NameIn;
    assert h.rest[|a|..] == imm;
  }

  lemma BitsMem(m: Memory, r: Operand, ty: Type)
    ensures var x, use2 := BitsOf(NumbersMem(m, r), r.ext8bit, Use2Mem(m, r), ty.m0F), Use2Mem(m, r);
      && x.present == PrefixedMem(m, r, ty.m0F) && x.w == Prefixes.Bit(r.Wide())
      && x.R == r.idx / 8 % 2 && x.R4 == (if use2 then r.idx / 16 % 2 else 0)
      && (r.ext8bit ==> x.present) && (r.UsesRex2() ==> use2)
  {
    hide RXB, Optimize, Prefixes.UsesRex2;
  }

  lemma AddressFits(m: Memory)
    requires Fits(InMemory(m))
    ensures Encodable(m.e)
  {}

  lemma Unnamed(m: Memory)
    requires Fits(InMemory(m))
    ensures Placeable(m.e)
  {}

  lemma OperandsBack(h: Head, m: Memory, r: Operand, ty: Type, a: seq<u8>, imm: seq<u8>, byteReg: bool, at: int, auto: bool, labels: Labels)
    requires Fits(InMemory(m)) && r.Valid() && ModeOf(m.e) != Disp64
    requires EncodeAddr(m.e, r.idx, 0, false, at, |imm|, auto, labels) == Some(a)
    requires h.rest == a + imm && h.x == BitsOf(NumbersMem(m, r), r.ext8bit, Use2Mem(m, r), ty.m0F)
    ensures DecodeOperands(h, byteReg, false, |imm|)
         == Some(Insn(h.f, Prefixes.Bit(r.Wide()), h.opmap, h.opcode,
                      NameIn(NumberIn(r.idx, Use2Mem(m, r)), byteReg,
                             PrefixedMem(m, r, ty.m0F)),
                      At(Prefixes.PlaceFor(m.e, r.idx, at + |a| + |imm|, labels)), imm))
  {
    hide DecodeOperands, NameIn, RexBytes, EncodeAddr, DecodePlace, Prefixes.PlaceFor, ModeOf, Fits, BitsOf, NumbersMem, PrefixedMem,
      Optimize, Operand.Valid, Use2Mem;
    AddressBack(m, r, ty, |imm|, imm, at, auto, labels);
    var place := DecodePlace(a + imm, ExtensionIn(h.x), false, 1).value;
    OperandsMem(h, a, r.idx % 8, place, imm, byteReg);
    BitsMem(m, r, ty);
  }

  /** What the decoder makes of the bytes of opMR, the register still by number. */
  lemma MemoryBytes(m: Memory, r: Operand, ty: Type, code: u8, imm: seq<u8>, byteReg: bool, at: int, auto: bool, labels: Labels)
    requires Fits(InMemory(m)) && r.Valid() && Proper(ty, SizedOpcode(ty, r.bit, code))
    requires OpMR(m, r, ty, code, |imm|, at, auto, labels).Some?
    ensures var bs := OpMR(m, r, ty, code, |imm|, at, auto, labels).value + imm; var use2 := Use2Mem(m, r);
      Decode(bs, byteReg, false, |imm|)
      == Some(Insn(Flags(Has66(ty, m.bit, r.bit), ty.f2, ty.f3, Width(m.e) == 32), Prefixes.Bit(r.Wide()), MapOf(ty),
                   SizedOpcode(ty, r.bit, code),
                   NameIn(NumberIn(r.idx, use2), byteReg, PrefixedMem(m, r, ty.m0F)),
                   At(Prefixes.PlaceFor(m.e, r.idx, at + |bs|, labels)), imm))
  {
    hide NumberIn, HeadMem, OpMR, DecodeHead, DecodeOperands, SizedOpcode, Proper, Has66, NameIn, MapOf, RexBytes, EncodeAddr, DecodePlace,
      Prefixes.PlaceFor, Width, ModeOf, Fits, BitsOf, NumbersMem, PrefixedMem, Optimize, Operand.Valid, Use2Mem;
    Unnamed(m);
    var a := OpMRIs(m, r, ty, code, imm, at, auto, labels);
    HeadMemDecodes(m, r, ty, code, a + imm);
    var h := DecodeHead(HeadMem(m, r, ty, code) + (a + imm)).value;
    OperandsBack(h, m, r, ty, a, imm, byteReg, at + |HeadMem(m, r, ty, code)|, auto, labels);
  }

  /** opMR round trip: base, index, scale and displacement always come back, and an address relative to rip counts
      from the next instruction; the register does unless the address needs a prefix that it cannot have. */
  lemma MemoryDecodes(m: Memory, r: Operand, ty: Type, code: u8, imm: seq<u8>, digit: bool, at: int, auto: bool, labels: Labels)
    requires Fits(InMemory(m)) && r.Valid() && Proper(ty, SizedOpcode(ty, r.bit, code)) && (digit ==> r.idx < 8 && !r.ext8bit)
    requires OpMR(m, r, ty, code, |imm|, at, auto, labels).Some?
    ensures var bs := OpMR(m, r, ty, code, |imm|, at, auto, labels).value + imm;
      Decode(bs, !digit && ByteRegister(r), false, |imm|)
      == Some(Meant(r, ty, m.bit, Width(m.e) == 32, r.Wide(), code, digit, At(Prefixes.PlaceFor(m.e, r.idx, at + |bs|, labels)), imm))
      <==> digit || Named(r, RexedMem(m, r), Use2Mem(m, r))
  {
    hide RexedMem, OpMR, Decode, SizedOpcode, Proper, Has66, NameOf, Named, MapOf, NameIn, Prefixes.PlaceFor, Width, Fits, PrefixedMem, Operand.Valid,
      Use2Mem, BitsOf, NumbersMem, NumberIn;
    MemoryBytes(m, r, ty, code, imm, !digit && ByteRegister(r), at, auto, labels);
    BitsMem(m, r, ty);
    AddressFits(m);
    RexedMemIs(m, r, ty.m0F);
    if digit { DigitBack(r, PrefixedMem(m, r, ty.m0F), Use2Mem(m, r)); }
    else { NameBack(r, PrefixedMem(m, r, ty.m0F), Use2Mem(m, r)); }
  }

  lemma ExtensionBack(m: Memory, r: Operand, is0F: bool)
    requires Encodable(m.e) && !IsVsib(m.e) && m.e.index.bit != 8192
    ensures ExtensionIn(BitsOf(NumbersMem(m, r), r.ext8bit, Use2Mem(m, r), is0F)) == ExtensionOf(Optimize(m.e))
  {
    hide RexBytes;
  }

  lemma ReadsBack(e: RegExp, reg: int, at: int, immSize: nat, auto: bool, labels: Labels)
    requires Encodable(e) && Placeable(e) && !e.rip && ModeOf(e) != Disp64 && EncodeAddr(e, reg, 0, false, at, immSize, auto, labels).Some?
    ensures ReadDisp(Optimize(e), 0, 1) == SignedDisp(e.disp)
    ensures !IsVsib(e)
  {
    ReadDispIs(Optimize(e), 0, 1);
  }

  lemma AddressBack(m: Memory, r: Operand, ty: Type, immSize: nat, imm: seq<u8>, at: int, auto: bool, labels: Labels)
    requires Fits(InMemory(m)) && r.Valid() && immSize == |imm| && ModeOf(m.e) != Disp64
    requires EncodeAddr(m.e, r.idx, 0, false, at, immSize, auto, labels).Some?
    ensures var a := EncodeAddr(m.e, r.idx, 0, false, at, immSize, auto, labels).value;
      var x := BitsOf(NumbersMem(m, r), r.ext8bit, Use2Mem(m, r), ty.m0F);
      var place := DecodePlace(a + imm, ExtensionIn(x), false, 1);
      && place.Some? && place.value.size == |a| && |a + imm| > 0 && (a + imm)[0] / 64 != 3 && (a + imm)[0] / 8 % 8 == r.idx % 8
      && place.value.(size := 0) == Prefixes.PlaceFor(m.e, r.idx, at + |a| + immSize, labels)
  {
    hide DecodePlace, ReadDisp, ExtensionIn, BitsOf, NumbersMem, Use2Mem, ExtensionOf, ModRM, EncodeSIB, DispFits;
    assert !IsVsib(m.e);
    ExtensionBack(m, r, ty.m0F);
    var ext := ExtensionOf(Optimize(m.e));
    var a := EncodeAddr(m.e, r.idx, 0, false, at, immSize, auto, labels).value;
    if !m.e.rip { ReadsBack(m.e, r.idx, at, immSize, auto, labels); }
    Prefixes.AddrDecodes(m.e, r.idx, 0, at, immSize, auto, labels, imm, ext, 1);
    Prefixes.PlaceHasBytes(a + imm, ext, false, 1);
    RegBack(a + imm, ext);
  }

  lemma RegBack(bs: seq<u8>, x: Extension)
    requires DecodePlace(bs, x, false, 1).Some?
    ensures |bs| > 0 && DecodePlace(bs, x, false, 1).value.reg == bs[0] / 8 % 8
  {}

  /** Among general registers of one size the check for ah, ch, dh and bh is enough: what is accepted comes back. */
  lemma SameSizeIsNamed(r1: Operand, r2: Operand, ty: Type, code: u8)
    requires r1.Valid() && r2.Valid() && r1.kind == Gpr && r2.kind == Gpr && !ty.diffSize && !ty.abcdh
    requires OpRR(r1, r2, ty, code).Some?
    ensures Named(r1, RexedRegs(r1, r2), Use2Regs(r1, r2)) && Named(r2, RexedRegs(r1, r2), Use2Regs(r1, r2))
  {
    hide Marks, RexBytes;
  }

  lemma MovzxParts(ext8bit: bool)
    ensures var ty := NO_TYPE.(m0F := true, diffSize := true);
      && Marks(ty, 8, 64, false) == [] && WriteCode(ty, 64, 0xB6, false) == [0x0F, 0xB6] && ModRM(3, 0, 4) == 0xC4
      && RexBytes(Numbers(true, 0, 4, 0), ext8bit, false, true) == [0x48]
  {
    assert RXB(8, true, 0, 4, 0) == 8;
  }

  lemma MovzxRax(ext8bit: bool)
    ensures OpRR(Operand(Gpr, 0, 64, false, false), Operand(Gpr, 4, 8, ext8bit, false), NO_TYPE.(m0F := true, diffSize := true), 0xB6)
         == Some([0x48, 0x0F, 0xB6, 0xC4])
  {
    hide RexBytes, Marks, WriteCode, ModRM;
    MovzxParts(ext8bit);
    assert [] + [0x48] + [0x0F, 0xB6] + [0xC4] == [0x48, 0x0F, 0xB6, 0xC4];
  }

  /** movzx rax, ah: the operands differ in size, so W is set beside ah, and spl is read instead. */
  lemma HighByteIsLost()
    ensures var rax, ah, spl := Operand(Gpr, 0, 64, false, false), Operand(Gpr, 4, 8, false, false), Operand(Gpr, 4, 8, true, false);
      var ty := NO_TYPE.(m0F := true, diffSize := true);
      OpRR(rax, ah, ty, 0xB6) == Some([0x48, 0x0F, 0xB6, 0xC4]) && OpRR(rax, ah, ty, 0xB6) == OpRR(rax, spl, ty, 0xB6)
  {
    MovzxRax(false);
    MovzxRax(true);
  }

  /** mov ah, [r8]: nothing looks at the register beside an address, and spl is written instead. */
  lemma HighByteBesideAddress(at: int, auto: bool, labels: Labels)
    ensures var ah, spl := Operand(Gpr, 4, 8, false, false), Operand(Gpr, 4, 8, true, false);
      var m := Memory(RegExp(Reg(8, 64), NONE, 1, 0, None, false, false), 0);
      && Fits(InMemory(m)) && OpMR(m, ah, NO_TYPE, 0x8A, 0, at, auto, labels).Some?
      && OpMR(m, ah, NO_TYPE, 0x8A, 0, at, auto, labels) == OpMR(m, spl, NO_TYPE, 0x8A, 0, at, auto, labels)
  {
    var m := Memory(RegExp(Reg(8, 64), NONE, 1, 0, None, false, false), 0);
    assert RXB(8, false, 4, 8, 0) == 1;
  }

  function WhereOf(op: RegMem, reg: int, next: int, labels: Labels): Where {
    match op
    case Register(r) => Is(NameOf(r))
    case InMemory(m) => At(Prefixes.PlaceFor(m.e, reg, next, labels))
  }

  /** opSSE. */
  function OpSSE(r: Operand, op: RegMem, ty: Type, code: u8, imm: Option<u8>, at: int, auto: bool, labels: Labels): Option<seq<u8>>
    requires Fits(op)
  {
    if (r.kind == Xmm && r.idx >= 16) || (op.Register? && op.r.kind == Xmm && op.r.idx >= 16) then None
    else
      var tail := if imm.Some? then [imm.value] else [];
      var p :- OpRO(r, op, ty, code, |tail|, at, auto, labels);
      Some(p + tail)
  }

  /** opSSE round trip: its own check leaves no vector register that the bytes could not hold. */
  lemma SseDecodes(r: Operand, op: RegMem, ty: Type, code: u8, imm: Option<u8>, at: int, auto: bool, labels: Labels)
    requires r.Valid() && Fits(op) && Proper(ty, SizedOpcode(ty, r.bit, code)) && OpSSE(r, op, ty, code, imm, at, auto, labels).Some?
    requires !ByteRegister(r) && (op.Register? ==> !ByteRegister(op.r))
    ensures var bs := OpSSE(r, op, ty, code, imm, at, auto, labels).value; var tail := if imm.Some? then [imm.value] else [];
      Decode(bs, false, false, |tail|)
      == Some(Meant(r, ty, op.Bit(), op.InMemory? && Width(op.m.e) == 32, r.Wide() || (op.Register? && op.r.Wide()), code, false,
                    WhereOf(op, r.idx, at + |bs|, labels), tail))
  {
    hide Decode, OpRR, OpMR, Proper, SizedOpcode, Meant, RexedRegs, RexedMem;
    var tail := if imm.Some? then [imm.value] else [];
    match op
    case Register(r2) => RegistersDecode(r, r2, ty, code, tail, false);
    case InMemory(m) => MemoryDecodes(m, r, ty, code, tail, false, at, auto, labels);
  }

  predicate Relaxed16(x: int) { x / 0x1_0000 == 0 || x / 0x1_0000 == 0xFFFF }

  /** getImmBit: how many bits of the immediate are written. */
  function ImmBit(op: RegMem, imm: int): (n: Option<int>)
    ensures n.Some? ==> n.value in {8, 16, 32}
  {
    if op.InMemory? && op.m.bit == 0 then None
    else
      var n := if op.Bit() == 8 || InDisp8(imm) then 8 else if Relaxed16(imm) then 16 else 32;
      if op.Bit() < n then None
      else if n == 16 && (op.Bit() == 32 || op.Bit() == 64) then Some(32) else Some(n)
  }

  /** opRext for an operand of any size, without its APX form. */
  function OpRext(op: RegMem, ext: int, ty: Type, code: u8, immSize: nat, at: int, auto: bool, labels: Labels): Option<seq<u8>>
    requires Fits(op)
  {
    var r := Operand(Gpr, ext, op.Bit(), false, false);
    match op
    case InMemory(m) => OpMR(m, r, ty, code, immSize, at, auto, labels)
    case Register(r2) => if r2.kind == Gpr then OpRR(r, r2, ty.(abcdh := true), code) else None
  }

  predicate Sized(op: RegMem) {
    op.Register? || op.m.bit in {0, 8, 16, 32, 64}
  }

  /** al, ax, eax or rax with an immediate of the full size. */
  predicate ShortForm(op: RegMem, n: int) {
    op.Register? && op.r.kind == Gpr && op.r.idx == 0 && (op.r.bit == n || (op.r.bit == 64 && n == 32))
  }

  function ShortOpcode(ext: int, n: int): u8
    requires 0 <= ext < 8
  {
    if n == 8 then 8 * ext + 4 else 8 * ext + 5
  }

  function ShortOI(r: Operand, ext: int, n: int): Option<seq<u8>>
    requires 0 <= ext < 8
  {
    var p :- RexRegs(r, NO_REG, NO_TYPE);
    Some(p.0 + [ShortOpcode(ext, n)])
  }

  function GroupCode(bit: int, n: int): u8 {
    if n < if bit < 32 then bit else 32 then 0x82 else 0x80
  }

  function LongOI(op: RegMem, ext: int, n: int, at: int, auto: bool, labels: Labels): Option<seq<u8>>
    requires Fits(op) && n in {8, 16, 32}
  {
    OpRext(op, ext, NO_TYPE, GroupCode(op.Bit(), n), n / 8, at, auto, labels)
  }

  /** opOI, with ext the operation, such as 0 for add and 5 for sub. */
  function OpOI(op: RegMem, imm: int, ext: int, at: int, auto: bool, labels: Labels): Option<seq<u8>>
    requires Fits(op) && 0 <= ext < 8
  {
    var n :- ImmBit(op, imm);
    var p :- if ShortForm(op, n) then ShortOI(op.r, ext, n) else LongOI(op, ext, n, at, auto, labels);
    Some(p + LE(imm, n / 8))
  }

  /** An arithmetic instruction with an immediate as the processor carries it out: the operand's size in bits and the
      value, sign-extended. */
  datatype Operation = Operation(ext: Name, size: int, target: Where, value: int)

  function SizeIn(h: Head): int {
    if h.x.w == 1 then 64 else if h.f.p66 then 16 else 32
  }

  /** Opcodes 00+8*ext+4, 00+8*ext+5, 80, 81 and 83 of the one-byte map. */
  function DecodeArith(bs: seq<u8>): Option<Operation> {
    var h :- DecodeHead(bs);
    var size := SizeIn(h);
    var z := if size == 16 then 2 else 4;
    if h.opmap != 0 then None
    else if h.opcode < 0x40 && h.opcode % 8 == 4 then
      if |h.rest| == 1 then Some(Operation(Low(h.opcode / 8), 8, Is(Low(0)), Signed(h.rest))) else None
    else if h.opcode < 0x40 && h.opcode % 8 == 5 then
      if |h.rest| == z then Some(Operation(Low(h.opcode / 8), size, Is(Low(0)), Signed(h.rest))) else None
    else if h.opcode == 0x80 then Group(h, true, 1, 8)
    else if h.opcode == 0x81 then Group(h, false, z, size)
    else if h.opcode == 0x83 then Group(h, false, 1, size)
    else None
  }

  function Group(h: Head, byte: bool, n: nat, size: int): Option<Operation> {
    var d :- DecodeOperands(h, false, byte, n);
    Some(Operation(d.reg, size, d.rm, Signed(d.imm)))
  }

  /** What the value that was written stands for, among operands of bit bits. */
  predicate Represents(value: int, imm: int, bit: int) {
    if bit == 8 then value % 0x100 == imm % 0x100
    else if bit == 16 then value % 0x1_0000 == imm % 0x1_0000
    else value == ToInt(imm)
  }

  lemma {:induction false} UnsignedMod(v: int, n: nat)
    ensures Unsigned(LE(v, n)) == v % Range(n)
    decreases n
  {
    if n > 0 {
      UnsignedMod(v / 0x100, n - 1);
      assert LE(v, n)[1..] == LE(v / 0x100, n - 1);
      ModStep(v, Range(n - 1));
    }
  }

  lemma ModStep(v: int, m: nat)
    requires m > 0
    ensures v % 0x100 + 0x100 * (v / 0x100 % m) == v % (0x100 * m)
  {
    var q, r := v / 0x100 / m, v / 0x100 % m;
    var low := v % 0x100 + 0x100 * r;
    assert v / 0x100 == m * q + r;
    assert v == (0x100 * m) * q + low;
    assert 0x100 * r + 0x100 <= 0x100 * m;
    Arith.DivUnique(v, 0x100 * m, q);
  }

  lemma RangesAre()
    ensures Range(1) == 0x100 && Range(2) == 0x1_0000 && Range(4) == W32 && Range(8) == W64
  {
    RangeIs();
    assert Range(2) == 0x100 * Range(1);
    assert Range(5) == 0x100 * Range(4);
    assert Range(6) == 0x100 * Range(5);
    assert Range(7) == 0x100 * Range(6);
    assert Range(8) == 0x100 * Range(7);
  }

  lemma SignedMod(v: int, n: nat)
    ensures Signed(LE(v, n)) % Range(n) == v % Range(n)
  {
    hide LE, Unsigned, Range;
    UnsignedMod(v, n);
    ModMinus(Unsigned(LE(v, n)), Range(n));
  }

  lemma ModMinus(u: int, m: int)
    requires 0 <= u < m
    ensures (u - m) % m == u % m == u
  {
    assert u - m == m * -1 + u;
  }

  lemma ImmediateReads(op: RegMem, imm: int)
    requires 0 <= imm < W32 && op.Bit() in {8, 16, 32, 64} && ImmBit(op, imm).Some?
    ensures Represents(Signed(LE(imm, ImmBit(op, imm).value / 8)), imm, op.Bit())
  {
    hide LE, Signed, Range, ToInt, InDisp8;
    var n := ImmBit(op, imm).value;
    RangesAre();
    ToIntSame(imm);
    if n == 32 { Reads(imm, 4); }
    else if n == 16 { SignedMod(imm, 2); }
    else if InDisp8(imm) { Reads8(imm); }
    else { SignedMod(imm, 1); }
  }

  lemma ToIntSame(imm: int)
    requires 0 <= imm < W32
    ensures ToInt(imm) % 0x100 == imm % 0x100 && ToInt(imm) % 0x1_0000 == imm % 0x1_0000
  {
    if imm >= 0x8000_0000 {
      LessMultiple(imm, 0x100, 0x100_0000);
      LessMultiple(imm, 0x1_0000, 0x1_0000);
    }
  }

  lemma LessMultiple(v: int, m: int, k: int)
    requires m > 0
    ensures (v - k * m) % m == v % m
  {
    var q, r := v / m, v % m;
    assert v == q * m + r;
    assert v - k * m == (q - k) * m + r;
    Arith.DivUnique(v - k * m, m, q - k);
  }

  /** An opcode after the prefixes of a single register. */
  lemma SingleDecodes(r: Operand, code: u8, rest: seq<u8>)
    requires r.Valid() && r.kind == Gpr && RexRegs(r, NO_REG, NO_TYPE).Some?
    requires Proper(NO_TYPE, code)
    ensures var h := DecodeHead(RexRegs(r, NO_REG, NO_TYPE).value.0 + [code] + rest);
      && h.Some? && h.value.f == Flags(r.bit == 16, false, false, false) && h.value.opmap == 0 && h.value.opcode == code
      && h.value.rest == rest && h.value.x.w == Prefixes.Bit(r.Wide()) && h.value.x.R == 0 && h.value.x.R4 == 0
      && NameIn(r.idx % 8 + 8 * h.value.x.B + 16 * h.value.x.B4, ByteRegister(r), h.value.x.present) == NameOf(r)
  {
    hide DecodeHead, Marks, WriteCode, NameIn, NameOf, RexBytes, RexRegs, Proper, SizedOpcode;
    var ty, n, use2 := NO_TYPE.(other := true), NumbersRegs(r, NO_REG), Use2Regs(r, NO_REG);
    SingleIs(r, code);
    HeadDecodes(ty, r.bit, 0, false, n, r.ext8bit, use2, 8, code, rest);
    RexedForced(n, r.ext8bit, use2, false);
    SingleRexed(r);
    NameBack(r, RexBytes(n, r.ext8bit, use2, false) != [], use2);
  }

  lemma SingleIs(r: Operand, code: u8)
    requires RexRegs(r, NO_REG, NO_TYPE).Some?
    ensures var ty, n, use2 := NO_TYPE.(other := true), NumbersRegs(r, NO_REG), Use2Regs(r, NO_REG);
      && SizedOpcode(ty, 8, code) == code && (Proper(NO_TYPE, code) ==> Proper(ty, code))
      && RexRegs(r, NO_REG, NO_TYPE).value.0 + [code]
      == Marks(ty, r.bit, 0, false) + RexBytes(n, r.ext8bit, use2, false) + WriteCode(ty, 8, code, use2)
  {
    hide RexBytes;
  }

  lemma SingleRexed(r: Operand)
    requires r.Valid() && r.kind == Gpr
    ensures r.High8bit() ==> RexBytes(NumbersRegs(r, NO_REG), r.ext8bit, Use2Regs(r, NO_REG), false) == []
  {
    if r.High8bit() {
      assert r.idx / 8 == 0 && r.idx / 16 == 0;
      assert RXB(8, false, 0, r.idx, 0) == 0;
    }
  }

  lemma ShortArith(r: Operand, imm: int, ext: int, n: int)
    requires r.Valid() && 0 <= imm < W32 && 0 <= ext < 8 && ImmBit(Register(r), imm) == Some(n) && ShortForm(Register(r), n)
    requires ShortOI(r, ext, n).Some?
    ensures DecodeArith(ShortOI(r, ext, n).value + LE(imm, n / 8)) == Some(Operation(Low(ext), r.bit, Is(NameOf(r)), Signed(LE(imm, n / 8))))
  {
    hide DecodeHead, Signed, LE, RexRegs, NameIn;
    SingleDecodes(r, ShortOpcode(ext, n), LE(imm, n / 8));
  }

  /** What the group decoder makes of a decoded instruction. */
  lemma GroupIs(bs: seq<u8>, byte: bool, n: nat, d: Insn)
    requires Decode(bs, false, byte, n) == Some(d) && d.opmap == 0 && d.reg.Low?
    requires d.opcode == 0x80 || d.opcode == 0x81 || d.opcode == 0x83
    requires var size := if d.w == 1 then 64 else if d.f.p66 then 16 else 32;
      if d.opcode == 0x80 then byte && n == 1 else !byte && n == (if d.opcode == 0x83 then 1 else if size == 16 then 2 else 4)
    ensures DecodeArith(bs)
         == Some(Operation(d.reg, if byte then 8 else if d.w == 1 then 64 else if d.f.p66 then 16 else 32, d.rm, Signed(d.imm)))
  {
    hide DecodeHead, NameIn, DecodePlace, Signed;
  }

  /** The group instruction opOI asks for, with ext in the register field. */
  function GroupInsn(ext: int, bit: int, abcdh: bool, a67: bool, n: int, rm: Where, tail: seq<u8>): (d: Insn)
    ensures d.rm == rm
  {
    Meant(Operand(Gpr, ext, bit, false, false), NO_TYPE.(abcdh := abcdh), bit, a67, bit == 64, GroupCode(bit, n), true, rm, tail)
  }

  lemma GroupMeans(bs: seq<u8>, ext: int, bit: int, abcdh: bool, a67: bool, n: int, rm: Where, tail: seq<u8>)
    requires bit in {8, 16, 32, 64} && n in {8, 16, 32} && n <= bit && (n == 16 ==> bit == 16) && |tail| == n / 8
    requires Decode(bs, false, bit == 8, n / 8) == Some(GroupInsn(ext, bit, abcdh, a67, n, rm, tail))
    ensures DecodeArith(bs) == Some(Operation(Low(ext), bit, rm, Signed(tail)))
  {
    hide Decode, DecodeArith, Signed;
    GroupIs(bs, bit == 8, n / 8, GroupInsn(ext, bit, abcdh, a67, n, rm, tail));
  }

  lemma LongIsRR(r2: Operand, ext: int, n: int)
    requires r2.Valid() && n in {8, 16, 32} && LongOI(Register(r2), ext, n, 0, false, map[]).Some?
    ensures r2.kind == Gpr
    ensures LongOI(Register(r2), ext, n, 0, false, map[])
         == OpRR(Operand(Gpr, ext, r2.bit, false, false), r2, NO_TYPE.(abcdh := true), GroupCode(r2.bit, n))
  {
    hide OpRR, GroupCode;
  }

  lemma GroupProper(bit: int, abcdh: bool, n: int)
    ensures Proper(NO_TYPE.(abcdh := abcdh), SizedOpcode(NO_TYPE.(abcdh := abcdh), bit, GroupCode(bit, n)))
  {}

  lemma LongRegister(r2: Operand, ext: int, n: int, tail: seq<u8>)
    requires r2.Valid() && n in {8, 16, 32} && 0 <= ext < 8 && n <= r2.bit && (n == 16 ==> r2.bit == 16) && |tail| == n / 8
    requires LongOI(Register(r2), ext, n, 0, false, map[]).Some?
    ensures DecodeArith(LongOI(Register(r2), ext, n, 0, false, map[]).value + tail)
         == Some(Operation(Low(ext), r2.bit, Is(NameOf(r2)), Signed(tail)))
  {
    hide Decode, DecodeArith, Signed, OpRR, Named, RexedRegs, NameOf, LongOI, GroupCode, Proper, SizedOpcode, Meant, Use2Regs;
    var r, ty, code := Operand(Gpr, ext, r2.bit, false, false), NO_TYPE.(abcdh := true), GroupCode(r2.bit, n);
    LongIsRR(r2, ext, n);
    GroupProper(r2.bit, true, n);
    DigitSafe(r, r2);
    RegistersDecode(r, r2, ty, code, tail, true);
    GroupMeans(OpRR(r, r2, ty, code).value + tail, ext, r2.bit, true, false, n, Is(NameOf(r2)), tail);
  }

  lemma LongIsMR(m: Memory, ext: int, n: int, at: int, auto: bool, labels: Labels)
    requires Fits(InMemory(m)) && n in {8, 16, 32}
    ensures Placeable(m.e)
    ensures LongOI(InMemory(m), ext, n, at, auto, labels)
         == OpMR(m, Operand(Gpr, ext, m.bit, false, false), NO_TYPE, GroupCode(m.bit, n), n / 8, at, auto, labels)
  {
    hide OpMR, GroupCode;
  }

  lemma LongMemory(m: Memory, ext: int, n: int, tail: seq<u8>, at: int, auto: bool, labels: Labels)
    requires Fits(InMemory(m)) && m.bit in {8, 16, 32, 64}
    requires n in {8, 16, 32} && 0 <= ext < 8 && n <= m.bit && (n == 16 ==> m.bit == 16) && |tail| == n / 8
    requires LongOI(InMemory(m), ext, n, at, auto, labels).Some?
    ensures var bs := LongOI(InMemory(m), ext, n, at, auto, labels).value + tail;
      DecodeArith(bs) == Some(Operation(Low(ext), m.bit, At(Prefixes.PlaceFor(m.e, ext, at + |bs|, labels)), Signed(tail)))
  {
    hide Decode, DecodeArith, Signed, OpMR, Named, RexedMem, LongOI, GroupCode, Fits, Width, Prefixes.PlaceFor, Proper, SizedOpcode, Meant,
      Use2Mem;
    var r, code := Operand(Gpr, ext, m.bit, false, false), GroupCode(m.bit, n);
    LongIsMR(m, ext, n, at, auto, labels);
    GroupProper(m.bit, false, n);
    MemoryDecodes(m, r, NO_TYPE, code, tail, true, at, auto, labels);
    var bs := OpMR(m, r, NO_TYPE, code, n / 8, at, auto, labels).value + tail;
    var rm := At(Prefixes.PlaceFor(m.e, ext, at + |bs|, labels));
    AnyByte(bs, false, m.bit == 8, n / 8, GroupInsn(ext, m.bit, false, Width(m.e) == 32, n, rm, tail));
    GroupMeans(bs, ext, m.bit, false, Width(m.e) == 32, n, rm, tail);
  }

  lemma AnyByte(bs: seq<u8>, byteReg: bool, byteRm: bool, n: nat, d: Insn)
    requires Decode(bs, byteReg, false, n) == Some(d) && d.rm.At?
    ensures Decode(bs, byteReg, byteRm, n) == Some(d)
  {
    hide DecodeHead, NameIn, DecodePlace;
  }

  /** Beside a part of the opcode ah, ch, dh and bh need no prefix. */
  lemma DigitSafe(r: Operand, r2: Operand)
    requires r2.Valid() && r2.kind == Gpr && r.kind == Gpr && 0 <= r.idx < 8 && r.bit == r2.bit && !r.ext8bit
    ensures Named(r2, RexedRegs(r, r2), Use2Regs(r, r2))
  {
  }

  /** opOI keeps its meaning: the processor carries out operation ext on the operand that was given, at its size, with
      a value that stands for the immediate, whichever of the four forms was chosen. */
  lemma ArithDecodes(op: RegMem, imm: int, ext: int, at: int, auto: bool, labels: Labels)
    requires Fits(op) && Sized(op) && 0 <= imm < W32 && 0 <= ext < 8 && OpOI(op, imm, ext, at, auto, labels).Some?
    ensures var bs := OpOI(op, imm, ext, at, auto, labels).value; var d := DecodeArith(bs);
      && d.Some? && d.value.ext == Low(ext) && d.value.size == op.Bit() && d.value.target == WhereOf(op, ext, at + |bs|, labels)
      && Represents(d.value.value, imm, op.Bit())
  {
    hide DecodeArith, Signed, LE, ShortOI, LongOI, Represents, Prefixes.PlaceFor, NameOf;
    var n := ImmBit(op, imm).value;
    if ShortForm(op, n) {
      ImmediateReads(op, imm);
      ShortArith(op.r, imm, ext, n);
    } else {
      HasSize(op, ext, n, at, auto, labels);
      ImmediateReads(op, imm);
      match op
      case Register(r) => LongAnywhere(r, ext, n, at, auto, labels); LongRegister(r, ext, n, LE(imm, n / 8));
      case InMemory(m) => LongMemory(m, ext, n, LE(imm, n / 8), at, auto, labels);
    }
  }

  lemma LongAnywhere(r: Operand, ext: int, n: int, at: int, auto: bool, labels: Labels)
    requires r.Valid() && n in {8, 16, 32}
    ensures LongOI(Register(r), ext, n, at, auto, labels) == LongOI(Register(r), ext, n, 0, false, map[])
  {}

  lemma HasSize(op: RegMem, ext: int, n: int, at: int, auto: bool, labels: Labels)
    requires Fits(op) && Sized(op) && op.Bit() != 0 && n in {8, 16, 32} && LongOI(op, ext, n, at, auto, labels).Some?
    ensures op.Bit() in {8, 16, 32, 64}
  {}

  /** On registers opOI refuses exactly operands that are not general registers, the NF and ZU modifiers, and an
      immediate for a 16-bit register that has neither 16 zero nor 16 one bits in front. */
  lemma ArithAccepts(r: Operand, imm: int, ext: int, at: int, auto: bool, labels: Labels)
    requires r.Valid() && 0 <= imm < W32 && 0 <= ext < 8
    ensures OpOI(Register(r), imm, ext, at, auto, labels).Some? <==> r.kind == Gpr && !r.flagged && (r.bit == 16 ==> imm < 0x1_0000 || imm >= 0xFFFF_0000)
  {
    hide Marks, RexBytes, WriteCode, ModRM, LE;
  }

  /** mov_imm with the immediate: imm holds the 64 bits. */
  function MovRegister(r: Operand, imm: int): Option<seq<u8>>
    requires r.Valid()
  {
    var p :- RexRegs(if r.bit == 64 && imm < W32 then Operand(Gpr, r.idx, 32, false, false) else r, NO_REG, NO_TYPE);
    if r.bit == 64 && imm < W32 then Some(p.0 + [0xB8 + r.idx % 8] + LE(imm, 4))
    else if r.bit == 64 && DispFits(imm) then Some(p.0 + [0xC7] + [0xC0 + r.idx % 8] + LE(imm, 4))
    else if r.bit == 8 then Some(p.0 + [0xB0 + r.idx % 8] + LE(imm, 1))
    else Some(p.0 + [0xB8 + r.idx % 8] + LE(imm, r.bit / 8))
  }

  /** How many bytes of the immediate mov writes to memory; None is ERR_IMM_IS_TOO_BIG. */
  function MovSize(bit: nat, imm: int): Option<nat> {
    if bit / 8 <= 4 then
      var s := SignedDisp(imm) / Range(bit / 8);
      if s == 0 || s == -1 then Some(bit / 8) else None
    else if DispFits(imm) then Some(4) else None
  }

  /** mov with an immediate. */
  function MovImm(op: RegMem, imm: int, at: int, auto: bool, labels: Labels): Option<seq<u8>>
    requires Fits(op)
  {
    match op
    case Register(r) => if r.kind == Gpr then MovRegister(r, imm) else None
    case InMemory(m) =>
      if m.bit == 0 then None
      else
        var n :- MovSize(m.bit, imm);
        var p :- OpMR(m, Operand(Gpr, 0, m.bit, false, false), NO_TYPE, 0xC6, n, at, auto, labels);
        Some(p + LE(imm % W32, n))
  }

  /** A move of a value as the processor carries it out. */
  datatype Move = Move(size: int, target: Where, value: int)

  /** Opcodes B0 to BF, C6 and C7 of the one-byte map. */
  function DecodeMove(bs: seq<u8>): Option<Move> {
    var h :- DecodeHead(bs);
    var size := SizeIn(h);
    if h.opmap != 0 then None
    else if 0xB0 <= h.opcode < 0xB8 then
      var n := h.opcode % 8 + 8 * h.x.B + 16 * h.x.B4;
      if |h.rest| == 1 then Some(Move(8, Is(NameIn(n, true, h.x.present)), Unsigned(h.rest))) else None
    else if 0xB8 <= h.opcode < 0xC0 then
      var n := h.opcode % 8 + 8 * h.x.B + 16 * h.x.B4;
      if |h.rest| == size / 8 then Some(Move(size, Is(NameIn(n, false, h.x.present)), Unsigned(h.rest))) else None
    else if h.opcode == 0xC6 then MoveGroup(h, true, 1, 8)
    else if h.opcode == 0xC7 then MoveGroup(h, false, if size == 16 then 2 else 4, size)
    else None
  }

  function MoveGroup(h: Head, byte: bool, n: nat, size: int): Option<Move> {
    var d :- DecodeOperands(h, false, byte, n);
    if d.reg == Low(0) then Some(Move(size, d.rm, Signed(d.imm))) else None
  }

  /** What an operand that held w holds afterwards: a 32-bit move to a register clears the upper half. */
  function Result(size: int, value: int, w: int): int {
    if size == 64 then value % W64
    else if size == 32 then value % W32
    else if size == 16 then w - w % 0x1_0000 + value % 0x1_0000
    else w - w % 0x100 + value % 0x100
  }

  lemma MoveShort(r: Operand, imm: int, code: u8, n: nat)
    requires r.Valid() && r.kind == Gpr && RexRegs(r, NO_REG, NO_TYPE).Some? && n == r.bit / 8
    requires code == (if r.bit == 8 then 0xB0 else 0xB8) + r.idx % 8
    ensures DecodeMove(RexRegs(r, NO_REG, NO_TYPE).value.0 + [code] + LE(imm, n)) == Some(Move(r.bit, Is(NameOf(r)), imm % Range(n)))
  {
    hide DecodeHead, Unsigned, LE, RexRegs, NameIn, NameOf, Range;
    UnsignedMod(imm, n);
    SingleDecodes(r, code, LE(imm, n));
    assert code % 8 == r.idx % 8;
  }

  lemma MoveLong(r: Operand, imm: int)
    requires r.Valid() && r.kind == Gpr && r.bit == 64 && RexRegs(r, NO_REG, NO_TYPE).Some?
    ensures DecodeMove(RexRegs(r, NO_REG, NO_TYPE).value.0 + [0xC7] + [0xC0 + r.idx % 8] + LE(imm, 4))
         == Some(Move(64, Is(NameOf(r)), Signed(LE(imm, 4))))
  {
    hide DecodeHead, Signed, LE, RexRegs, NameIn, NameOf, Range;
    var rest := [0xC0 + r.idx % 8] + LE(imm, 4);
    var head := RexRegs(r, NO_REG, NO_TYPE).value.0 + [0xC7];
    assert head + [0xC0 + r.idx % 8] + LE(imm, 4) == head + rest;
    SingleDecodes(r, 0xC7, rest);
    assert rest[0] == 0xC0 + r.idx % 8 && rest[1..] == LE(imm, 4);
    NameZero();
  }

  lemma NameZero()
    ensures forall rexed {:trigger NameIn(0, false, rexed)} :: NameIn(0, false, rexed) == Low(0)
  {}

  /** Sign-extending four bytes gives back what fits them. */
  lemma FourBytes(imm: int)
    requires 0 <= imm < W64 && DispFits(imm)
    ensures Signed(LE(imm, 4)) % W64 == imm
  {
    RangesAre();
    DispFitsMeans(imm);
    UnsignedMod(imm, 4);
  }

  lemma MovRegisterIs(r: Operand, imm: int)
    requires r.Valid() && r.kind == Gpr && 0 <= imm < W64 && MovRegister(r, imm).Some?
    ensures var low, m := Operand(Gpr, r.idx, 32, false, false), MovRegister(r, imm).value;
      if r.bit == 64 && imm < W32 then
        low.Valid() && RexRegs(low, NO_REG, NO_TYPE).Some? && m == RexRegs(low, NO_REG, NO_TYPE).value.0 + [0xB8 + r.idx % 8] + LE(imm, 4)
      else
        && RexRegs(r, NO_REG, NO_TYPE).Some?
        && if r.bit == 64 && DispFits(imm) then m == RexRegs(r, NO_REG, NO_TYPE).value.0 + [0xC7] + [0xC0 + r.idx % 8] + LE(imm, 4)
           else m == RexRegs(r, NO_REG, NO_TYPE).value.0 + [(if r.bit == 8 then 0xB0 else 0xB8) + r.idx % 8] + LE(imm, r.bit / 8)
  {
    hide LE, RexRegs, DispFits;
  }

  lemma ResultOf(bit: int, imm: int, w: int)
    requires bit in {8, 16, 32, 64} && 0 <= imm < W64
    ensures Result(bit, imm % Range(bit / 8), w) == Result(bit, imm, w)
    ensures imm < W32 ==> Result(32, imm % Range(4), w) == Result(64, imm, w)
  {
    RangesAre();
  }

  lemma MoveRegister(r: Operand, imm: int, w: int)
    requires r.Valid() && r.kind == Gpr && 0 <= imm < W64 && MovRegister(r, imm).Some?
    ensures var d := DecodeMove(MovRegister(r, imm).value);
      && d.Some? && d.value.target == Is(NameOf(r)) && Result(d.value.size, d.value.value, w) == Result(r.bit, imm, w)
  {
    hide DecodeMove, LE, RexRegs, Signed, DispFits, MovRegister, Range;
    MovRegisterIs(r, imm);
    ResultOf(r.bit, imm, w);
    if r.bit == 64 && imm < W32 {
      hide Result;
      MoveShort(Operand(Gpr, r.idx, 32, false, false), imm, 0xB8 + r.idx % 8, 4);
    } else if r.bit == 64 && DispFits(imm) {
      MoveLong(r, imm);
      FourBytes(imm);
    } else {
      hide Result;
      MoveShort(r, imm, (if r.bit == 8 then 0xB0 else 0xB8) + r.idx % 8, r.bit / 8);
    }
  }

  lemma MovSizeIs(bit: nat, imm: int)
    requires bit in {8, 16, 32, 64} && 0 <= imm < W64 && MovSize(bit, imm).Some?
    ensures var n := MovSize(bit, imm).value;
      n == (if bit == 64 then 4 else bit / 8) && forall w :: Result(bit, Signed(LE(imm % W32, n)), w) == Result(bit, imm, w)
  {
    hide LE, Signed, Range, SignedDisp;
    var n := MovSize(bit, imm).value;
    RangesAre();
    SignedMod(imm % W32, n);
    if bit == 64 {
      FourLow(imm);
      FourBytes(imm);
    } else {
      LowMod(imm, bit);
    }
  }

  lemma FourLow(imm: int)
    ensures LE(imm % W32, 4) == LE(imm, 4)
  {
    LowBytes(imm, imm % W32, 4);
    RangesAre();
  }

  lemma {:induction false} LowBytes(a: int, b: int, n: nat)
    requires a % Range(n) == b % Range(n)
    ensures LE(a, n) == LE(b, n)
    decreases n
  {
    if n > 0 {
      ModStep(a, Range(n - 1));
      ModStep(b, Range(n - 1));
      LowBytes(a / 0x100, b / 0x100, n - 1);
    }
  }

  lemma LowMod(v: int, bit: int)
    requires bit in {8, 16, 32}
    ensures var m := if bit == 8 then 0x100 else if bit == 16 then 0x1_0000 else W32; v % W32 % m == v % m
  {
    if bit == 8 { ModMod(v, 0x100, 0x100_0000); }
    else if bit == 16 { ModMod(v, 0x1_0000, 0x1_0000); }
    else { ModMod(v, W32, 1); }
  }

  lemma ModMod(v: int, m: int, k: int)
    requires m > 0 && k > 0
    ensures m * k > 0 && v % (m * k) % m == v % m
  {
    Positive(m, k);
    var q, s := v / (m * k), v % (m * k);
    Split(v, m, k, q, s);
    Arith.DivUnique(v, m, k * q + s / m);
  }

  lemma Positive(m: int, k: int)
    requires m > 0 && k > 0
    ensures m * k > 0
  {}

  lemma Split(v: int, m: int, k: int, q: int, s: int)
    requires m > 0 && v == (m * k) * q + s
    ensures v == (k * q + s / m) * m + s % m
  {
    assert (m * k) * q == (k * q) * m;
    assert s == s / m * m + s % m;
  }

  lemma MoveGroupIs(bs: seq<u8>, d: Insn, n: nat)
    requires Decode(bs, false, false, n) == Some(d) && d.opmap == 0 && d.reg == Low(0) && d.rm.At?
    requires d.opcode == 0xC6 || d.opcode == 0xC7
    requires var size := if d.w == 1 then 64 else if d.f.p66 then 16 else 32;
      n == if d.opcode == 0xC6 then 1 else if size == 16 then 2 else 4
    ensures DecodeMove(bs)
         == Some(Move(if d.opcode == 0xC6 then 8 else if d.w == 1 then 64 else if d.f.p66 then 16 else 32, d.rm, Signed(d.imm)))
  {
    AnyByte(bs, false, true, n, d);
    hide DecodeHead, NameIn, DecodePlace, Signed;
  }

  lemma MovMemoryIs(m: Memory, imm: int, at: int, auto: bool, labels: Labels)
    requires Fits(InMemory(m)) && MovImm(InMemory(m), imm, at, auto, labels).Some?
    ensures Placeable(m.e) && MovSize(m.bit, imm).Some?
    ensures var n := MovSize(m.bit, imm).value; var p := OpMR(m, Operand(Gpr, 0, m.bit, false, false), NO_TYPE, 0xC6, n, at, auto, labels);
      p.Some? && MovImm(InMemory(m), imm, at, auto, labels).value == p.value + LE(imm % W32, n)
  {
    hide LE, OpMR, MovSize;
  }

  function MoveInsn(bit: int, a67: bool, rm: Where, tail: seq<u8>): (d: Insn)
    ensures d.rm == rm && d.imm == tail
  {
    Meant(Operand(Gpr, 0, bit, false, false), NO_TYPE, bit, a67, bit == 64, 0xC6, true, rm, tail)
  }

  lemma MoveMeans(bs: seq<u8>, bit: int, a67: bool, rm: Where, tail: seq<u8>, n: nat)
    requires bit in {8, 16, 32, 64} && n == (if bit == 64 then 4 else bit / 8) && rm.At?
    requires Decode(bs, false, false, n) == Some(MoveInsn(bit, a67, rm, tail))
    ensures DecodeMove(bs) == Some(Move(bit, rm, Signed(tail)))
  {
    hide Decode, DecodeMove, Signed;
    MoveGroupIs(bs, MoveInsn(bit, a67, rm, tail), n);
  }

  lemma MoveProper(bit: int)
    ensures Proper(NO_TYPE, SizedOpcode(NO_TYPE, bit, 0xC6))
  {}

  lemma MoveMemory(m: Memory, imm: int, at: int, auto: bool, labels: Labels, w: int)
    requires Fits(InMemory(m)) && m.bit in {8, 16, 32, 64} && 0 <= imm < W64 && MovImm(InMemory(m), imm, at, auto, labels).Some?
    ensures var bs := MovImm(InMemory(m), imm, at, auto, labels).value; var d := DecodeMove(bs);
      && d.Some? && d.value.target == At(Prefixes.PlaceFor(m.e, 0, at + |bs|, labels)) && d.value.size == m.bit
      && Result(d.value.size, d.value.value, w) == Result(m.bit, imm, w)
  {
    hide Decode, DecodeMove, LE, Signed, OpMR, Fits, Width, Prefixes.PlaceFor, Result, MovSize, MovImm, Meant, Proper, SizedOpcode, Named,
      RexedMem, Use2Mem;
    MovMemoryIs(m, imm, at, auto, labels);
    MovSizeIs(m.bit, imm);
    MoveProper(m.bit);
    var r, n := Operand(Gpr, 0, m.bit, false, false), MovSize(m.bit, imm).value;
    var tail := LE(imm % W32, n);
    MemoryDecodes(m, r, NO_TYPE, 0xC6, tail, true, at, auto, labels);
    var bs := OpMR(m, r, NO_TYPE, 0xC6, n, at, auto, labels).value + tail;
    MoveMeans(bs, m.bit, Width(m.e) == 32, At(Prefixes.PlaceFor(m.e, 0, at + |bs|, labels)), tail, n);
  }

  /** mov with an immediate keeps its meaning: whichever form is chosen, the processor leaves the operand that was
      given holding the immediate, at its size. */
  lemma MoveDecodes(op: RegMem, imm: int, at: int, auto: bool, labels: Labels, w: int)
    requires Fits(op) && Sized(op) && 0 <= imm < W64 && MovImm(op, imm, at, auto, labels).Some?
    ensures var bs := MovImm(op, imm, at, auto, labels).value; var d := DecodeMove(bs);
      && d.Some? && d.value.target == WhereOf(op, 0, at + |bs|, labels)
      && Result(d.value.size, d.value.value, w) == Result(op.Bit(), imm, w)
  {
    hide DecodeMove, OpMR, MovRegister, MovSize, Result, LE;
    match op
    case Register(r) => MoveRegister(r, imm, w);
    case InMemory(m) => MoveMemory(m, imm, at, auto, labels, w);
  }

  /** The label that an instruction with this operand leaves to be filled in. */
  function FixupsOf(op: RegMem, end: int, immSize: nat, labels: Labels): seq<Fixup> {
    if op.Register? then [] else Fixups(op.m.e, end, immSize, labels)
  }

  /** The bytes of the immediate opOI writes. */
  function ArithBytes(op: RegMem, imm: int): nat {
    var n := ImmBit(op, imm);
    if n.Some? then n.value / 8 else 0
  }

  /** The bytes of the immediate mov writes to memory. */
  function MovBytes(op: RegMem, imm: int): nat {
    if op.InMemory? && MovSize(op.m.bit, imm).Some? then MovSize(op.m.bit, imm).value else 0
  }

  /** The bytes decode to the operation on the operand, with a value that stands for the immediate. */
  ghost predicate ArithSays(op: RegMem, imm: int, ext: int, bs: seq<u8>, next: int, labels: Labels) {
    var d := DecodeArith(bs);
    && d.Some? && d.value.ext == Low(ext) && d.value.size == op.Bit() && d.value.target == WhereOf(op, ext, next, labels)
    && Represents(d.value.value, imm, op.Bit())
  }

  /** The bytes decode to a move after which the operand holds the immediate. */
  ghost predicate MoveSays(op: RegMem, imm: int, bs: seq<u8>, next: int, labels: Labels) {
    var d := DecodeMove(bs);
    && d.Some? && d.value.target == WhereOf(op, 0, next, labels)
    && forall w :: Result(d.value.size, d.value.value, w) == Result(op.Bit(), imm, w)
  }

  /** No byte registers. */
  predicate SseOperands(r: Operand, op: RegMem) {
    r.Valid() && !ByteRegister(r) && (op.Register? ==> !ByteRegister(op.r))
  }

  /** The bytes decode to the instruction that was asked for, on these operands and with this immediate. */
  ghost predicate SseSays(r: Operand, op: RegMem, ty: Type, code: u8, imm: Option<u8>, bs: seq<u8>, next: int, labels: Labels) {
    var tail := if imm.Some? then [imm.value] else [];
    Decode(bs, false, false, |tail|)
    == Some(Meant(r, ty, op.Bit(), op.InMemory? && Width(op.m.e) == 32, r.Wide() || (op.Register? && op.r.Wide()), code, false,
                  WhereOf(op, r.idx, next, labels), tail))
  }

  lemma SseIsSaid(r: Operand, op: RegMem, ty: Type, code: u8, imm: Option<u8>, at: int, auto: bool, labels: Labels)
    requires Fits(op) && SseOperands(r, op) && Proper(ty, SizedOpcode(ty, r.bit, code)) && OpSSE(r, op, ty, code, imm, at, auto, labels).Some?
    ensures var bs := OpSSE(r, op, ty, code, imm, at, auto, labels).value; SseSays(r, op, ty, code, imm, bs, at + |bs|, labels)
  {
    hide OpSSE, Decode, Meant, WhereOf, Fits, Proper, SizedOpcode, Width, Operand.Valid, ByteRegister;
    SseDecodes(r, op, ty, code, imm, at, auto, labels);
  }

  lemma ArithIsSaid(op: RegMem, imm: int, ext: int, at: int, auto: bool, labels: Labels)
    requires Fits(op) && Sized(op) && 0 <= imm < W32 && 0 <= ext < 8 && OpOI(op, imm, ext, at, auto, labels).Some?
    ensures var bs := OpOI(op, imm, ext, at, auto, labels).value; ArithSays(op, imm, ext, bs, at + |bs|, labels)
  {
    hide OpOI, DecodeArith, Represents, WhereOf, Sized, Fits;
    ArithDecodes(op, imm, ext, at, auto, labels);
  }

  lemma MoveIsSaid(op: RegMem, imm: int, at: int, auto: bool, labels: Labels)
    requires Fits(op) && Sized(op) && 0 <= imm < W64 && MovImm(op, imm, at, auto, labels).Some?
    ensures var bs := MovImm(op, imm, at, auto, labels).value; MoveSays(op, imm, bs, at + |bs|, labels)
  {
    hide MovImm, DecodeMove, Result, WhereOf, Sized, Fits;
    MoveDecodes(op, imm, at, auto, labels, 0);
    forall w
      ensures var d := DecodeMove(MovImm(op, imm, at, auto, labels).value).value; Result(d.size, d.value, w) == Result(op.Bit(), imm, w)
    {
      MoveDecodes(op, imm, at, auto, labels, w);
    }
  }

  class LegacyEmitter {
    const code: AddressEmitter

    constructor (code: AddressEmitter)
      ensures this.code == code
    {
      this.code := code;
    }

    method Db(b: u8)
      modifies code`buf
      ensures code.buf == old(code.buf) + [b]
    {
      code.buf := code.buf + [b];
    }

    /** db(v, n): n bytes of v, least significant first. */
    method DbN(v: int, n: nat)
      modifies code`buf
      ensures code.buf == old(code.buf) + LE(v, n)
    {
      var rest := v;
      for i := 0 to n
        invariant code.buf + LE(rest, n - i) == old(code.buf) + LE(v, n)
      {
        Db(rest % 0x100);
        rest := rest / 0x100;
      }
    }

    /** The prefixes rex writes first. */
    method PutMarks(ty: Type, bit1: int, bit2: int, a67: bool)
      modifies code`buf
      ensures code.buf == old(code.buf) + Marks(ty, bit1, bit2, a67)
    {
      hide If;
      var p66 := (bit1 == 16 && !(bit2 == 32 || bit2 == 64)) || (bit2 == 16 && !(bit1 == 32 || bit1 == 64));
      DbIf(ty.p66 || p66, 0x66);
      DbIf(ty.f2, 0xF2);
      DbIf(ty.f3, 0xF3);
      DbIf(a67, 0x67);
    }

    method DbIf(c: bool, b: u8)
      modifies code`buf
      ensures code.buf == old(code.buf) + If(c, b)
    {
      if c { Db(b); }
    }

    method PutRexBytes(n: Numbers, forced: bool, use2: bool, is0F: bool)
      modifies code`buf
      ensures code.buf == old(code.buf) + RexBytes(n, forced, use2, is0F)
    {
      hide RXB;
      var rex: u8 := RXB(8, n.w, n.r, n.b, n.x);
      if use2 {
        Db(0xD5);
        Db(RXB(16, is0F, n.r, n.b, n.x) * 16 + rex);
        return;
      }
      if rex != 0 || forced { rex := rex + 0x40; }
      if rex != 0 { Db(rex); }
    }

    /** rex on registers. */
    method RexOfRegs(op1: Operand, op2: Operand, ty: Type) returns (ok: bool, rex2: bool)
      modifies code`buf
      ensures var p := RexRegs(op1, op2, ty);
        ok == p.Some? && (ok ==> code.buf == old(code.buf) + p.value.0 && rex2 == p.value.1)
    {
      hide Marks, RexBytes;
      rex2 := Use2Regs(op1, op2);
      if op1.flagged || op2.flagged { return false, rex2; }
      PutMarks(ty, op1.bit, op2.bit, false);
      if rex2 && (ty.m0F38 || ty.m0F3A) { return false, rex2; }
      PutRexBytes(NumbersRegs(op1, op2), op1.ext8bit || op2.ext8bit, rex2, ty.m0F);
      ok := true;
    }

    /** rex on a memory operand. */
    method RexOfMem(m: Memory, r: Operand, ty: Type) returns (ok: bool, rex2: bool)
      modifies code`buf
      ensures var p := RexMem(m, r, ty);
        ok == p.Some? && (ok ==> code.buf == old(code.buf) + p.value.0 && rex2 == p.value.1)
    {
      hide Marks, RexBytes, NumbersMem;
      rex2 := Use2Mem(m, r);
      if r.flagged { return false, rex2; }
      PutMarks(ty, m.bit, r.bit, Width(m.e) == 32);
      if rex2 && (ty.m0F38 || ty.m0F3A) { return false, rex2; }
      PutRexBytes(NumbersMem(m, r), r.ext8bit, rex2, ty.m0F);
      ok := true;
    }

    method PutCode(ty: Type, bit: int, opcode: u8, rex2: bool)
      modifies code`buf
      ensures code.buf == old(code.buf) + WriteCode(ty, bit, opcode, rex2)
    {
      if !rex2 {
        if ty.m0F {
          Db(0x0F);
        } else if ty.m0F38 {
          Db(0x0F);
          Db(0x38);
        } else if ty.m0F3A {
          Db(0x0F);
          Db(0x3A);
        }
      }
      var low := opcode;
      if (ty.Plain() || ty.code1) && bit != 8 && opcode % 2 == 0 { low := opcode + 1; }
      Db(low);
    }

    /** opRR. */
    method PutRR(r1: Operand, r2: Operand, ty: Type, opcode: u8) returns (ok: bool)
      modifies code`buf
      ensures var p := OpRR(r1, r2, ty, opcode); ok == p.Some? && (ok ==> code.buf == old(code.buf) + p.value)
    {
      hide RexRegs, WriteCode, ModRM;
      if !ty.diffSize && r1.kind == Gpr && r2.kind == Gpr && r1.bit != r2.bit { return false; }
      if !ty.abcdh && (BadCombination(r1, r2) || BadCombination(r2, r1)) { return false; }
      var rex2;
      ok, rex2 := RexOfRegs(r2, r1, ty);
      if !ok { return; }
      PutCode(ty, r1.bit, opcode, rex2);
      code.SetModRM(3, r1.idx, r2.idx);
    }

    /** opMR. */
    method PutMR(m: Memory, r: Operand, ty: Type, opcode: u8, immSize: nat) returns (ok: bool)
      requires Placeable(m.e)
      modifies code
      ensures var p := OpMR(m, r, ty, opcode, immSize, code.base + |old(code.buf)|, code.auto, code.labels);
        ok == p.Some? && (ok ==> code.buf == old(code.buf) + p.value)
      ensures ok ==> code.fixups == old(code.fixups) + Fixups(m.e, |code.buf|, immSize, code.labels)
    {
      hide RexMem, WriteCode, EncodeAddr;
      if ModeOf(m.e) == Disp64 { return false; }
      if !ty.diffSize && r.bit <= 64 && m.bit > 0 && m.bit != r.bit { return false; }
      var rex2;
      ok, rex2 := RexOfMem(m, r, ty);
      if !ok { return; }
      PutCode(ty, r.bit, opcode, rex2);
      ok := code.OpAddr(m.e, r.idx, 0, false, immSize);
    }

    /** opSSE. */
    method PutSSE(r: Operand, op: RegMem, ty: Type, opcode: u8, imm: Option<u8>) returns (ok: bool)
      requires Fits(op)
      modifies code
      ensures var p := OpSSE(r, op, ty, opcode, imm, code.base + |old(code.buf)|, code.auto, code.labels);
        ok == p.Some? && (ok ==> code.buf == old(code.buf) + p.value)
      ensures ok ==> code.fixups == old(code.fixups) + FixupsOf(op, |code.buf| - (if imm.Some? then 1 else 0), (if imm.Some? then 1 else 0), code.labels)
      ensures ok && SseOperands(r, op) && Proper(ty, SizedOpcode(ty, r.bit, opcode)) ==>
        SseSays(r, op, ty, opcode, imm, code.buf[|old(code.buf)|..], code.base + |code.buf|, code.labels)
    {
      hide OpRO, SseSays, Proper, SizedOpcode, SseOperands, FixupsOf;
      ghost var before := code.buf;
      if r.kind == Xmm && r.idx >= 16 { return false; }
      if op.Register? && op.r.kind == Xmm && op.r.idx >= 16 { return false; }
      ok := PutRO(r, op, ty, opcode, if imm.Some? then 1 else 0);
      if ok {
        ghost var p, tail := code.buf, if imm.Some? then [imm.value] else [];
        if imm.Some? { Db(imm.value); }
        assert code.buf == p + tail;
        ghost var bs := OpSSE(r, op, ty, opcode, imm, code.base + |before|, code.auto, code.labels).value;
        assert code.buf == before + bs;
        assert code.buf[|before|..] == bs;
        if SseOperands(r, op) && Proper(ty, SizedOpcode(ty, r.bit, opcode)) {
          SseIsSaid(r, op, ty, opcode, imm, code.base + |before|, code.auto, code.labels);
        }
      }
    }

    /** opRO. */
    method PutRO(r: Operand, op: RegMem, ty: Type, opcode: u8, immSize: nat) returns (ok: bool)
      requires Fits(op)
      modifies code
      ensures var p := OpRO(r, op, ty, opcode, immSize, code.base + |old(code.buf)|, code.auto, code.labels);
        ok == p.Some? && (ok ==> code.buf == old(code.buf) + p.value)
      ensures ok ==> code.fixups == old(code.fixups) + FixupsOf(op, |code.buf|, immSize, code.labels)
    {
      hide OpRR, OpMR;
      match op
      case InMemory(m) => ok := PutMR(m, r, ty, opcode, immSize);
      case Register(r2) => ok := PutRR(r, r2, ty, opcode);
    }

    /** opOI. */
    method PutOI(op: RegMem, imm: int, ext: int) returns (ok: bool)
      requires Fits(op) && 0 <= ext < 8 && 0 <= imm < W32
      modifies code
      ensures var p := OpOI(op, imm, ext, code.base + |old(code.buf)|, code.auto, code.labels);
        ok == p.Some? && (ok ==> code.buf == old(code.buf) + p.value)
      ensures ok ==> code.fixups == old(code.fixups) + FixupsOf(op, |code.buf| - ArithBytes(op, imm), ArithBytes(op, imm), code.labels)
      ensures ok && Sized(op) ==> ArithSays(op, imm, ext, code.buf[|old(code.buf)|..], code.base + |code.buf|, code.labels)
    {
      hide OpRR, OpMR, RexRegs, LE, ArithSays, Sized;
      ghost var before := code.buf;
      var n := ImmBit(op, imm);
      if n.None? { return false; }
      if ShortForm(op, n.value) {
        var rex2;
        ok, rex2 := RexOfRegs(op.r, NO_REG, NO_TYPE);
        if !ok { return; }
        Db(ShortOpcode(ext, n.value));
      } else {
        ok := PutGroup(op, ext, NO_TYPE, GroupCode(op.Bit(), n.value), n.value / 8);
        if !ok { return; }
      }
      DbN(imm, n.value / 8);
      ghost var bs := OpOI(op, imm, ext, code.base + |before|, code.auto, code.labels).value;
      assert code.buf == before + bs;
      assert code.buf[|before|..] == bs;
      if Sized(op) { ArithIsSaid(op, imm, ext, code.base + |before|, code.auto, code.labels); }
    }

    /** opRext. */
    method PutGroup(op: RegMem, ext: int, ty: Type, opcode: u8, immSize: nat) returns (ok: bool)
      requires Fits(op)
      modifies code
      ensures var p := OpRext(op, ext, ty, opcode, immSize, code.base + |old(code.buf)|, code.auto, code.labels);
        ok == p.Some? && (ok ==> code.buf == old(code.buf) + p.value)
      ensures ok ==> code.fixups == old(code.fixups) + FixupsOf(op, |code.buf|, immSize, code.labels)
    {
      hide OpRR, OpMR;
      var r := Operand(Gpr, ext, op.Bit(), false, false);
      match op
      case InMemory(m) => ok := PutMR(m, r, ty, opcode, immSize);
      case Register(r2) =>
        if r2.kind != Gpr { return false; }
        ok := PutRR(r, r2, ty.(abcdh := true), opcode);
    }

    /** mov with an immediate. */
    method PutMov(op: RegMem, imm: int) returns (ok: bool)
      requires Fits(op) && 0 <= imm < W64
      modifies code
      ensures var p := MovImm(op, imm, code.base + |old(code.buf)|, code.auto, code.labels);
        ok == p.Some? && (ok ==> code.buf == old(code.buf) + p.value)
      ensures ok ==> code.fixups == old(code.fixups) + FixupsOf(op, |code.buf| - MovBytes(op, imm), MovBytes(op, imm), code.labels)
      ensures ok && Sized(op) ==> MoveSays(op, imm, code.buf[|old(code.buf)|..], code.base + |code.buf|, code.labels)
    {
      hide MovImm, MoveSays, Sized, Fits, FixupsOf, MovBytes;
      ghost var before := code.buf;
      ok := PutMovBytes(op, imm);
      if ok {
        ghost var bs := MovImm(op, imm, code.base + |before|, code.auto, code.labels).value;
        assert code.buf[|before|..] == bs;
        if Sized(op) { MoveIsSaid(op, imm, code.base + |before|, code.auto, code.labels); }
      }
    }

    method PutMovBytes(op: RegMem, imm: int) returns (ok: bool)
      requires Fits(op) && 0 <= imm < W64
      modifies code
      ensures var p := MovImm(op, imm, code.base + |old(code.buf)|, code.auto, code.labels);
        ok == p.Some? && (ok ==> code.buf == old(code.buf) + p.value)
      ensures ok ==> code.fixups == old(code.fixups) + FixupsOf(op, |code.buf| - MovBytes(op, imm), MovBytes(op, imm), code.labels)
    {
      hide OpMR, MovRegister, LE;
      match op
      case Register(r) =>
        if r.kind != Gpr { return false; }
        ok := PutMovRegister(r, imm);
      case InMemory(m) =>
        if m.bit == 0 { return false; }
        var n := MovSize(m.bit, imm);
        if n.None? { return false; }
        ok := PutMR(m, Operand(Gpr, 0, m.bit, false, false), NO_TYPE, 0xC6, n.value);
        if ok { DbN(imm % W32, n.value); }
    }

    /** mov_imm, and the bytes of the immediate after it. */
    method PutMovRegister(r: Operand, imm: int) returns (ok: bool)
      requires r.Valid() && r.kind == Gpr
      modifies code`buf
      ensures var p := MovRegister(r, imm); ok == p.Some? && (ok ==> code.buf == old(code.buf) + p.value)
    {
      hide RexRegs, LE, DispFits;
      var bit, opcode := r.bit, if r.bit == 8 then 0xB0 else 0xB8;
      var rex2;
      if bit == 64 && imm < W32 {
        ok, rex2 := RexOfRegs(Operand(Gpr, r.idx, 32, false, false), NO_REG, NO_TYPE);
        bit := 32;
      } else {
        ok, rex2 := RexOfRegs(r, NO_REG, NO_TYPE);
        if ok && bit == 64 && DispFits(imm) {
          Db(0xC7);
          opcode := 0xC0;
          bit := 32;
        }
      }
      if !ok { return; }
      Db(opcode + r.idx % 8);
      DbN(imm, bit / 8);
    }
  }
}
