/** xbyak/xbyak.h: opVex, vex and evex in 64-bit mode, against a decoder written from the Intel SDM, volume 2A,
    sections 2.3.5, 2.7 and 2.7.5. */
module PrefixEncoder {
  import opened AddressEncoder
  import opened Bytes
  import opened RegExps

  datatype Kind = GPR | XMM | YMM | ZMM | TMM | OPMASK

  /** A register operand with its decorations; mask 0 is none, rounding 0 is none, 5 is sae. */
  datatype Operand = Operand(kind: Kind, idx: int, bit: int, zero: bool, mask: int, rounding: int) {
    predicate Ext() { idx / 8 % 2 == 1 }
    predicate Ext2() { idx / 16 % 2 == 1 }
    predicate IsSimd() { kind == XMM || kind == YMM || kind == ZMM }
    predicate HasEvex() { kind == ZMM || Ext2() || mask != 0 || rounding != 0 }
    predicate Valid() {
      && 0 <= idx < 32 && 0 <= mask < 8 && 0 <= rounding <= 5 && 0 <= bit
      && (kind == XMM ==> bit == 128) && (kind == YMM ==> bit == 256) && (kind == ZMM ==> bit == 512)
      && (kind == GPR ==> bit <= 64) && (kind == OPMASK ==> bit == 64 && idx < 8) && (kind == TMM ==> bit == 8192 && idx < 8)
    }
  }

  datatype Memory = Memory(e: RegExp, broadcast: bool, zero: bool, mask: int)

  datatype RegMem = Register(r: Operand) | InMemory(m: Memory)

  /** The attributes of an instruction, the T_ flags of the mnemonic table. nx is the three bits of T_NX_MASK. */
  datatype Type = Type(p66: bool, f3: bool, f2: bool, m0F: bool, m0F38: bool, m0F3A: bool, map5: bool, map6: bool,
                       w1: bool, ew1: bool, l1: bool, evex: bool, mustEvex: bool, memEvex: bool, nx: nat, nVL: bool,
                       b32: bool, b64: bool, mK: bool, vsib: bool, erR: bool, erX: bool, erY: bool, erZ: bool,
                       saeX: bool, saeY: bool, saeZ: bool)

  const NX_DUP := 7

  function Bit(b: bool): (i: int)
    ensures 0 <= i < 2
  {
    if b then 1 else 0
  }

  function GetPP(ty: Type): (pp: int)
    ensures 0 <= pp < 4
  {
    if ty.p66 then 1 else if ty.f3 then 2 else if ty.f2 then 3 else 0
  }

  function GetMap(ty: Type): (map_: int)
    ensures 0 <= map_ < 8
  {
    if ty.map6 then 6 else if ty.map5 then 5 else if ty.m0F then 1 else if ty.m0F38 then 2 else if ty.m0F3A then 3 else 0
  }

  /** The mnemonic table sets at most one opcode map, and nx has three bits. */
  predicate OneMap(ty: Type) {
    (ty.m0F ==> !ty.map5 && !ty.map6) && ty.nx < 8
  }

  function Idx(v: Option<Operand>): int { if v.Some? then v.value.idx else 0 }

  /** vvvv, inverted. */
  function Inverted(idx: int): (v: int)
    ensures 0 <= v < 16
  {
    15 - idx % 16
  }

  /** The last byte of a VEX prefix, with R inverted or W on top. */
  function VexLow(top: bool, idx: int, L: bool, pp: int): u8
    requires 0 <= pp < 4
  {
    Bit(top) * 128 + Inverted(idx) * 8 + Bit(L) * 4 + pp
  }

  function VexMid(r: bool, x: bool, b: bool, map_: int): u8
    requires 0 <= map_ < 8
  {
    Bit(!r) * 128 + Bit(!x) * 64 + Bit(!b) * 32 + map_
  }

  /** vex(): the prefix and the opcode. */
  function Vex(reg: Operand, base: Operand, v: Option<Operand>, ty: Type, code: u8, x: bool): Option<seq<u8>> {
    if reg.idx >= 16 || base.idx >= 16 || Idx(v) >= 16 then None
    else
      var L := ty.l1 || reg.kind == YMM;
      if !base.Ext() && !x && !ty.w1 && ty.m0F then Some([0xC5, VexLow(!reg.Ext(), Idx(v), L, GetPP(ty)), code])
      else Some([0xC4, VexMid(reg.Ext(), x, base.Ext(), GetMap(ty)), VexLow(ty.w1, Idx(v), L, GetPP(ty)), code])
  }

  /** verifyDuplicate: a | b | c, if the non-zero ones among them are equal. */
  function Common(a: int, b: int, c: int): Option<int> {
    var v := if a > 0 then a else if b > 0 then b else c;
    if (b > 0 && b != v) || (c > 0 && c != v) then None else Some(v)
  }

  predicate SaeFits(r: Operand, ty: Type) {
    (ty.saeX && r.kind == XMM) || (ty.saeY && r.kind == YMM) || (ty.saeZ && r.kind == ZMM)
  }

  predicate ErFits(r: Operand, ty: Type) {
    || (ty.erR && r.kind == GPR && (r.bit == 32 || r.bit == 64))
    || (ty.erX && r.kind == XMM) || (ty.erY && r.kind == YMM) || (ty.erZ && r.kind == ZMM)
  }

  function Max(a: int, b: int): int { if a < b then b else a }

  function Power(n: nat): nat { if n == 0 then 1 else 2 * Power(n - 1) }

  /** disp8N for a vector length of VL bits. */
  function Disp8N(ty: Type, b: bool, VL: int): nat {
    if b then if ty.b32 && ty.b64 then 2 else if ty.b32 then 4 else 8
    else if ty.nx == NX_DUP then if VL == 128 then 8 else if VL == 256 then 32 else 64
    else
      var nx, nVL := if ty.nx == 0 && !ty.nVL then 5 else ty.nx, ty.nVL || ty.nx == 0;
      if nx > 0 then Power(nx - 1) * (if nVL then if VL == 512 then 4 else if VL == 256 then 2 else 1 else 1) else 1
  }

  /** The vector length evex() works with. */
  function Length(reg: Operand, base: Operand, v: Option<Operand>, VL: int): int {
    Max(Max(reg.bit, base.bit), if v.Some? then Max(VL, v.value.bit) else VL)
  }

  datatype Control = Control(ll: int, b: bool, disp8N: nat)

  /** Rounding, vector length and disp8N. */
  function ControlOf(reg: Operand, base: Operand, v: Option<Operand>, ty: Type, b: bool, VL: int): Option<Control> {
    var rounding :- Common(reg.rounding, base.rounding, if v.Some? then v.value.rounding else 0);
    if rounding == 5 then if SaeFits(base, ty) then Some(Control(0, true, 1)) else None
    else if rounding != 0 then if ErFits(base, ty) then Some(Control(rounding - 1, true, 1)) else None
    else
      var n := Length(reg, base, v, VL);
      Some(Control(if n >= 512 then 2 else if n == 256 then 1 else 0, b, Disp8N(ty, b, n)))
  }

  function MaskOf(reg: Operand, base: Operand, v: Option<Operand>, aaa: int): Option<int> {
    if aaa != 0 then Some(aaa) else Common(base.mask, reg.mask, if v.Some? then v.value.mask else 0)
  }

  predicate ZeroOf(reg: Operand, base: Operand, v: Option<Operand>) {
    reg.zero || base.zero || (v.Some? && v.value.zero)
  }

  function P0(R: bool, X3: bool, B: bool, Rp: bool, B4: bool, mmm: int): (p: int)
    requires 0 <= mmm < 8
    ensures 0 <= p < 0x100
  {
    Bit(!R) * 128 + Bit(!X3) * 64 + Bit(!B) * 32 + Bit(!Rp) * 16 + Bit(B4) * 8 + mmm
  }

  function P1(w: bool, idx: int, X4: bool, pp: int): (p: int)
    requires 0 <= pp < 4
    ensures 0 <= p < 0x100
  {
    Bit(w) * 128 + Inverted(idx) * 8 + Bit(!X4) * 4 + pp
  }

  function P2(z: bool, ll: int, b: bool, V4: bool, aaa: int): (p: int)
    requires 0 <= ll < 4 && 0 <= aaa < 8
    ensures 0 <= p < 0x100
  {
    Bit(z) * 128 + ll * 32 + Bit(b) * 16 + Bit(!V4) * 8 + aaa
  }

  /** The bytes of evex(), given the mask and what was settled about rounding and vector length. */
  function EvexHead(reg: Operand, base: Operand, v: Option<Operand>, ty: Type, code: u8, x: Option<Operand>, c: Control,
                    mask: int, hi16: bool): seq<u8>
    requires 0 <= c.ll < 4 && 0 <= mask < 8
  {
    var X3 := (x.Some? && x.value.Ext()) || (base.IsSimd() && base.Ext2());
    var B4 := base.kind == GPR && base.Ext2();
    var X4 := x.Some? && x.value.kind == GPR && x.value.Ext2();
    var V4 := (v.Some? && v.value.Ext2()) || hi16;
    [0x62, P0(reg.Ext(), X3, base.Ext(), reg.Ext2(), B4, GetMap(ty)), P1(ty.ew1, Idx(v), X4, GetPP(ty)),
     P2(ZeroOf(reg, base, v) && mask != 0, c.ll, c.b, V4, mask), code]
  }

  /** evex(): the prefix and the opcode, and disp8N. */
  function Evex(reg: Operand, base: Operand, v: Option<Operand>, ty: Type, code: u8, x: Option<Operand>, b: bool,
                aaa: int, VL: int, hi16: bool): Option<(seq<u8>, nat)>
    requires reg.Valid() && base.Valid() && (v.Some? ==> v.value.Valid()) && 0 <= aaa < 8
  {
    if !ty.evex && !ty.mustEvex then None
    else
      var c :- ControlOf(reg, base, v, ty, b, VL);
      var mask :- MaskOf(reg, base, v, aaa);
      Some((EvexHead(reg, base, v, ty, code, x, c, mask, hi16), c.disp8N))
  }

  /** A base or index register of an address as an operand. */
  function AsOperand(r: Reg): Operand {
    var kind := if r.bit == 128 then XMM else if r.bit == 256 then YMM else if r.bit == 512 then ZMM
                else if r.bit == 8192 then TMM else GPR;
    Operand(kind, r.idx, r.bit, false, 0, 0)
  }

  predicate UsesRex2(e: RegExp) {
    (e.base.bit <= 64 && e.base.idx >= 16) || (e.index.bit <= 64 && e.index.idx >= 16)
  }

  predicate NeedsEvex(r: Operand, v: Option<Operand>, op2: RegMem, ty: Type) {
    || ty.mustEvex || r.HasEvex() || (v.Some? && v.value.HasEvex())
    || (match op2
        case Register(base) => base.HasEvex()
        case InMemory(m) => ty.memEvex || m.broadcast || m.mask != 0 || UsesRex2(m.e))
  }

  /** The prefix opVex writes for a memory operand, and disp8N; None is one of its errors. */
  function MemoryPrefix(r: Operand, v: Option<Operand>, m: Memory, ty: Type, code: u8): Option<(seq<u8>, nat)>
    requires r.Valid() && (v.Some? ==> v.value.Valid()) && Encodable(m.e) && 0 <= m.mask < 8
  {
    var e := Optimize(m.e);
    var base, index := AsOperand(e.base), AsOperand(e.index);
    if ty.mK && (r.zero || (v.Some? && v.value.zero) || m.zero) then None
    else if NeedsEvex(r, v, InMemory(m), ty) then
      if (m.mask != 0 && !ty.mK) || (m.broadcast && !ty.b32 && !ty.b64) then None
      else Evex(r, base, v, ty, code, Some(index), m.broadcast, m.mask, if IsVsib(e) then e.index.bit else 0,
                index.IsSimd() && index.Ext2())
    else
      var p :- Vex(r, base, v, ty, code, index.Ext());
      Some((p, 0))
  }

  function Override(e: RegExp): seq<u8> {
    if Width(e) == 32 then [0x67] else []
  }

  /** The prefixes, opcode and address opVex writes for a memory operand. */
  function MemoryPart(r: Operand, v: Option<Operand>, m: Memory, ty: Type, code: u8, immSize: nat, at: int,
                      auto: bool, labels: Labels): Option<seq<u8>>
    requires Fits(r, v, InMemory(m))
  {
    var p :- MemoryPrefix(r, v, m, ty, code);
    var head := Override(m.e) + p.0;
    var a :- EncodeAddr(m.e, r.idx, p.1, ty.vsib, at + |head|, immSize, auto, labels);
    Some(head + a)
  }

  /** opVex: a whole instruction. */
  function OpVex(r: Operand, v: Option<Operand>, op2: RegMem, ty: Type, code: u8, imm: Option<u8>, at: int,
                 auto: bool, labels: Labels): Option<seq<u8>>
    requires Fits(r, v, op2)
  {
    var tail := if imm.Some? then [imm.value] else [];
    match op2
    case Register(base) =>
      var p :- RegisterPrefix(r, v, base, ty, code);
      Some(p + [ModRM(3, r.idx, base.idx)] + tail)
    case InMemory(m) =>
      var p :- MemoryPart(r, v, m, ty, code, |tail|, at, auto, labels);
      Some(p + tail)
  }

  function RegisterPrefix(r: Operand, v: Option<Operand>, base: Operand, ty: Type, code: u8): Option<seq<u8>>
    requires Fits(r, v, Register(base))
  {
    if NeedsEvex(r, v, Register(base), ty) then First(Evex(r, base, v, ty, code, None, false, 0, 0, false))
    else Vex(r, base, v, ty, code, false)
  }

  function First(p: Option<(seq<u8>, nat)>): Option<seq<u8>> {
    if p.Some? then Some(p.value.0) else None
  }

  predicate Fits(r: Operand, v: Option<Operand>, op2: RegMem) {
    && r.Valid() && (v.Some? ==> v.value.Valid())
    && (match op2
        case Register(base) => base.Valid()
        case InMemory(m) => Encodable(m.e) && Placeable(m.e) && 0 <= m.mask < 8 && m.e.index.bit != 8192)
  }

  /** The mandatory prefix and the opcode map as the processor names them; any other map is reserved. */
  datatype Mandatory = Unprefixed | Prefix66 | PrefixF3 | PrefixF2
  datatype OpMap = Map0F | Map0F38 | Map0F3A | Map5 | Map6 | Reserved(n: int)

  function MandatoryIn(pp: int): Mandatory {
    if pp == 1 then Prefix66 else if pp == 2 then PrefixF3 else if pp == 3 then PrefixF2 else Unprefixed
  }

  function MapIn(m: int): OpMap {
    if m == 1 then Map0F else if m == 2 then Map0F38 else if m == 3 then Map0F3A
    else if m == 5 then Map5 else if m == 6 then Map6 else Reserved(m)
  }

  /** What the attributes of an instruction ask for. */
  function PrefixAsked(ty: Type): Mandatory {
    if ty.p66 then Prefix66 else if ty.f3 then PrefixF3 else if ty.f2 then PrefixF2 else Unprefixed
  }

  function MapAsked(ty: Type): OpMap {
    if ty.map6 then Map6 else if ty.map5 then Map5 else if ty.m0F then Map0F
    else if ty.m0F38 then Map0F38 else if ty.m0F3A then Map0F3A else Reserved(0)
  }

  /** An instruction as the processor decodes it. */
  datatype Where = At(place: Place, vsib: bool) | Is(idx: int)
  datatype Insn = Insn(evex: bool, addr32: bool, opmap: OpMap, pp: Mandatory, w: int, ll: int, z: int, b: int, aaa: int,
                       reg: int, v: int, rm: Where, opcode: int, imm: seq<u8>)

  /** The fields of a prefix, register bits already inverted where the format says so. */
  datatype Prefix = Prefix(evex: bool, opmap: OpMap, pp: Mandatory, w: int, ll: int, z: int, b: int, aaa: int, R: int, Rp: int,
                           B: int, B4: int, X3: int, X4: int, vvvv: int, V4: int, opcode: int, size: nat)

  function DecodePrefix(bs: seq<u8>): Option<Prefix> {
    if |bs| >= 3 && bs[0] == 0xC5 then
      Some(Prefix(false, Map0F, MandatoryIn(bs[1] % 4), 0, bs[1] / 4 % 2, 0, 0, 0, 1 - bs[1] / 128, 0, 0, 0, 0, 0,
                  15 - bs[1] / 8 % 16, 0, bs[2], 3))
    else if |bs| >= 4 && bs[0] == 0xC4 then
      Some(Prefix(false, MapIn(bs[1] % 32), MandatoryIn(bs[2] % 4), bs[2] / 128, bs[2] / 4 % 2, 0, 0, 0, 1 - bs[1] / 128, 0,
                  1 - bs[1] / 32 % 2, 0, 1 - bs[1] / 64 % 2, 0, 15 - bs[2] / 8 % 16, 0, bs[3], 4))
    else if |bs| >= 5 && bs[0] == 0x62 then
      Some(Prefix(true, MapIn(bs[1] % 8), MandatoryIn(bs[2] % 4), bs[2] / 128, bs[3] / 32 % 4, bs[3] / 128, bs[3] / 16 % 2, bs[3] % 8,
                  1 - bs[1] / 128, 1 - bs[1] / 16 % 2, 1 - bs[1] / 32 % 2, bs[1] / 8 % 2, 1 - bs[1] / 64 % 2,
                  1 - bs[2] / 4 % 2, 15 - bs[2] / 8 % 16, 1 - bs[3] / 8 % 2, bs[4], 5))
    else None
  }

  /** What a disp8 is scaled by, from the tuple type of the instruction and the EVEX.b and L'L that were decoded. */
  function TupleN(ty: Type, b: int, ll: int): nat {
    if b == 1 then if ty.b32 && ty.b64 then 2 else if ty.b32 then 4 else 8
    else if ty.nx == 7 then if ll == 0 then 8 else if ll == 1 then 32 else 64
    else
      var wide := if ll == 2 then 4 else if ll == 1 then 2 else 1;
      if ty.nx == 0 && !ty.nVL then 16 * wide
      else if ty.nx == 0 then 1
      else Power(ty.nx - 1) * (if ty.nVL then wide else 1)
  }

  /** Whole instructions. What the opcode tables tell the processor is given: whether rm is a vector register,
      the tuple type, whether the address has a vector index, how many bytes the immediate has. */
  function DecodeInsn(bs: seq<u8>, vectorRm: bool, ty: Type, immSize: nat): Option<Insn> {
    var skip := if |bs| > 0 && bs[0] == 0x67 then 1 else 0;
    var f :- DecodePrefix(bs[skip..]);
    var rest := bs[skip..][f.size..];
    if |rest| == 0 then None
    else if rest[0] / 64 == 3 then
      if |rest| != 1 + immSize then None
      else
        var rm := rest[0] % 8 + 8 * f.B + 16 * (if vectorRm then f.X3 else f.B4);
        Some(InsnOf(f, skip == 1, rest[0] / 8 % 8, f.vvvv + 16 * f.V4, Is(rm), rest[1..]))
    else
      var x := Extension(f.B, f.B4, f.X3, if ty.vsib then f.V4 else f.X4);
      var place :- DecodePlace(rest, x, ty.vsib, if f.evex then TupleN(ty, f.b, f.ll) else 1);
      if |rest| != place.size + immSize then None
      else
        var v := f.vvvv + (if ty.vsib then 0 else 16 * f.V4);
        Some(InsnOf(f, skip == 1, place.reg, v, At(place.(size := 0), ty.vsib), rest[place.size..]))
  }

  function InsnOf(f: Prefix, addr32: bool, reg: int, v: int, rm: Where, imm: seq<u8>): Insn {
    Insn(f.evex, addr32, f.opmap, f.pp, f.w, f.ll, f.z, f.b, f.aaa, reg + 8 * f.R + 16 * f.Rp, v, rm, f.opcode, imm)
  }

  lemma P0Fields(R: bool, X3: bool, B: bool, Rp: bool, B4: bool, mmm: int)
    requires 0 <= mmm < 8
    ensures var p := P0(R, X3, B, Rp, B4, mmm);
      && p / 128 == Bit(!R) && p / 64 % 2 == Bit(!X3) && p / 32 % 2 == Bit(!B) && p / 16 % 2 == Bit(!Rp)
      && p / 8 % 2 == Bit(B4) && p % 8 == mmm
  {
    var p, r, x, b, rp, b4 := P0(R, X3, B, Rp, B4, mmm), Bit(!R), Bit(!X3), Bit(!B), Bit(!Rp), Bit(B4);
    hide P0, Bit;
    assert p == r * 128 + x * 64 + b * 32 + rp * 16 + b4 * 8 + mmm;
    assert p / 64 == r * 2 + x;
    assert p / 32 == r * 4 + x * 2 + b;
    assert p / 16 == r * 8 + x * 4 + b * 2 + rp;
    assert p / 8 == r * 16 + x * 8 + b * 4 + rp * 2 + b4;
  }

  lemma P1Fields(w: bool, idx: int, X4: bool, pp: int)
    requires 0 <= pp < 4
    ensures var p := P1(w, idx, X4, pp);
      p / 128 == Bit(w) && p / 8 % 16 == Inverted(idx) && p / 4 % 2 == Bit(!X4) && p % 4 == pp
  {
    hide Inverted;
  }

  lemma P2Fields(z: bool, ll: int, b: bool, V4: bool, aaa: int)
    requires 0 <= ll < 4 && 0 <= aaa < 8
    ensures var p := P2(z, ll, b, V4, aaa);
      p / 128 == Bit(z) && p / 32 % 4 == ll && p / 16 % 2 == Bit(b) && p / 8 % 2 == Bit(!V4) && p % 8 == aaa
  {}

  lemma VexLowFields(top: bool, idx: int, L: bool, pp: int)
    requires 0 <= pp < 4
    ensures var b := VexLow(top, idx, L, pp);
      b / 128 == Bit(top) && 15 - b / 8 % 16 == idx % 16 && b / 4 % 2 == Bit(L) && b % 4 == pp
  {
    P1Fields(top, idx, !L, pp);
  }

  lemma VexMidFields(r: bool, x: bool, b: bool, map_: int)
    requires 0 <= map_ < 8
    ensures var p := VexMid(r, x, b, map_);
      1 - p / 128 == Bit(r) && 1 - p / 64 % 2 == Bit(x) && 1 - p / 32 % 2 == Bit(b) && p % 32 == map_
  {}

  lemma DecodeVex2(b1: u8, code: u8, rest: seq<u8>)
    ensures DecodePrefix([0xC5, b1, code] + rest)
         == Some(Prefix(false, Map0F, MandatoryIn(b1 % 4), 0, b1 / 4 % 2, 0, 0, 0, 1 - b1 / 128, 0, 0, 0, 0, 0, 15 - b1 / 8 % 16, 0, code, 3))
  {
    var bs := [0xC5, b1, code] + rest;
    assert bs[0] == 0xC5 && bs[1] == b1 && bs[2] == code;
  }

  lemma DecodeVex3(b1: u8, b2: u8, code: u8, rest: seq<u8>)
    ensures DecodePrefix([0xC4, b1, b2, code] + rest)
         == Some(Prefix(false, MapIn(b1 % 32), MandatoryIn(b2 % 4), b2 / 128, b2 / 4 % 2, 0, 0, 0, 1 - b1 / 128, 0, 1 - b1 / 32 % 2, 0,
                        1 - b1 / 64 % 2, 0, 15 - b2 / 8 % 16, 0, code, 4))
  {
    var bs := [0xC4, b1, b2, code] + rest;
    assert bs[0] == 0xC4 && bs[1] == b1 && bs[2] == b2 && bs[3] == code;
  }

  lemma DecodeEvex(b1: u8, b2: u8, b3: u8, code: u8, rest: seq<u8>)
    ensures DecodePrefix([0x62, b1, b2, b3, code] + rest)
         == Some(Prefix(true, MapIn(b1 % 8), MandatoryIn(b2 % 4), b2 / 128, b3 / 32 % 4, b3 / 128, b3 / 16 % 2, b3 % 8, 1 - b1 / 128,
                        1 - b1 / 16 % 2, 1 - b1 / 32 % 2, b1 / 8 % 2, 1 - b1 / 64 % 2, 1 - b2 / 4 % 2, 15 - b2 / 8 % 16,
                        1 - b3 / 8 % 2, code, 5))
  {
    var bs := [0x62, b1, b2, b3, code] + rest;
    assert bs[0] == 0x62 && bs[1] == b1 && bs[2] == b2 && bs[3] == b3 && bs[4] == code;
  }

  /** The prefix fields a VEX instruction has. */
  function VexPrefix(reg: Operand, base: Operand, v: Option<Operand>, ty: Type, code: u8, x: bool, size: nat): Prefix {
    Prefix(false, MapAsked(ty), PrefixAsked(ty), Bit(ty.w1), Bit(ty.l1 || reg.kind == YMM), 0, 0, 0, Bit(reg.Ext()), 0,
           Bit(base.Ext()), 0, Bit(x), 0, Idx(v) % 16, 0, code, size)
  }

  lemma FlagsAre(ty: Type)
    ensures MandatoryIn(GetPP(ty)) == PrefixAsked(ty) && MapIn(GetMap(ty)) == MapAsked(ty)
  {}

  /** vex round trip, for the two-byte and the three-byte form. */
  lemma VexDecodes(reg: Operand, base: Operand, v: Option<Operand>, ty: Type, code: u8, x: bool, rest: seq<u8>)
    requires OneMap(ty) && Vex(reg, base, v, ty, code, x).Some?
    ensures var p := Vex(reg, base, v, ty, code, x).value;
      && DecodePrefix(p + rest) == Some(VexPrefix(reg, base, v, ty, code, x, |p|))
      && 3 <= |p| <= 4 && p[0] != 0x67
  {
    FlagsAre(ty);
    hide DecodePrefix, GetPP, VexLow, VexMid, MapIn, MandatoryIn, PrefixAsked;
    var L, pp := ty.l1 || reg.kind == YMM, GetPP(ty);
    if !base.Ext() && !x && !ty.w1 && ty.m0F {
      VexLowFields(!reg.Ext(), Idx(v), L, pp);
      DecodeVex2(VexLow(!reg.Ext(), Idx(v), L, pp), code, rest);
    } else {
      hide GetMap;
      VexLowFields(ty.w1, Idx(v), L, pp);
      VexMidFields(reg.Ext(), x, base.Ext(), GetMap(ty));
      DecodeVex3(VexMid(reg.Ext(), x, base.Ext(), GetMap(ty)), VexLow(ty.w1, Idx(v), L, pp), code, rest);
    }
  }

  /** The prefix fields an EVEX instruction has. */
  function EvexPrefix(reg: Operand, base: Operand, v: Option<Operand>, ty: Type, code: u8, x: Option<Operand>, c: Control,
                      mask: int, hi16: bool): Prefix {
    Prefix(true, MapAsked(ty), PrefixAsked(ty), Bit(ty.ew1), c.ll, Bit(ZeroOf(reg, base, v) && mask != 0), Bit(c.b), mask,
           Bit(reg.Ext()), Bit(reg.Ext2()), Bit(base.Ext()), Bit(base.kind == GPR && base.Ext2()),
           Bit((x.Some? && x.value.Ext()) || (base.IsSimd() && base.Ext2())),
           Bit(x.Some? && x.value.kind == GPR && x.value.Ext2()), Idx(v) % 16,
           Bit((v.Some? && v.value.Ext2()) || hi16), code, 5)
  }

  lemma ControlFits(reg: Operand, base: Operand, v: Option<Operand>, ty: Type, b: bool, VL: int)
    requires reg.Valid() && base.Valid() && (v.Some? ==> v.value.Valid()) && ControlOf(reg, base, v, ty, b, VL).Some?
    ensures 0 <= ControlOf(reg, base, v, ty, b, VL).value.ll < 4
  {}

  lemma MaskFits(reg: Operand, base: Operand, v: Option<Operand>, aaa: int)
    requires reg.Valid() && base.Valid() && (v.Some? ==> v.value.Valid()) && 0 <= aaa < 8 && MaskOf(reg, base, v, aaa).Some?
    ensures 0 <= MaskOf(reg, base, v, aaa).value < 8
  {}

  lemma FieldsDecode(R: bool, X3: bool, B: bool, Rp: bool, B4: bool, mmm: int, w: bool, idx: int, X4: bool, pp: int,
                     z: bool, ll: int, b: bool, V4: bool, aaa: int, code: u8, rest: seq<u8>)
    requires 0 <= mmm < 8 && 0 <= pp < 4 && 0 <= ll < 4 && 0 <= aaa < 8
    ensures DecodePrefix([0x62, P0(R, X3, B, Rp, B4, mmm), P1(w, idx, X4, pp), P2(z, ll, b, V4, aaa), code] + rest)
         == Some(Prefix(true, MapIn(mmm), MandatoryIn(pp), Bit(w), ll, Bit(z), Bit(b), aaa, Bit(R), Bit(Rp), Bit(B), Bit(B4), Bit(X3), Bit(X4),
                        idx % 16, Bit(V4), code, 5))
  {
    hide DecodePrefix, P0, P1, P2;
    P0Fields(R, X3, B, Rp, B4, mmm);
    P1Fields(w, idx, X4, pp);
    P2Fields(z, ll, b, V4, aaa);
    DecodeEvex(P0(R, X3, B, Rp, B4, mmm), P1(w, idx, X4, pp), P2(z, ll, b, V4, aaa), code, rest);
  }

  lemma HeadDecodes(reg: Operand, base: Operand, v: Option<Operand>, ty: Type, code: u8, x: Option<Operand>, c: Control,
                    mask: int, hi16: bool, rest: seq<u8>)
    requires 0 <= c.ll < 4 && 0 <= mask < 8
    ensures DecodePrefix(EvexHead(reg, base, v, ty, code, x, c, mask, hi16) + rest)
         == Some(EvexPrefix(reg, base, v, ty, code, x, c, mask, hi16))
  {
    FlagsAre(ty);
    hide DecodePrefix, P0, P1, P2, GetMap, GetPP, MapAsked, PrefixAsked, ZeroOf, Operand.Ext, Operand.Ext2, Operand.IsSimd, Bit, Idx, EvexHead, EvexPrefix,
      MapIn, MandatoryIn, PrefixAsked, MapAsked;
    var X3 := (x.Some? && x.value.Ext()) || (base.IsSimd() && base.Ext2());
    var B4, X4 := base.kind == GPR && base.Ext2(), x.Some? && x.value.kind == GPR && x.value.Ext2();
    var z, V4 := ZeroOf(reg, base, v) && mask != 0, (v.Some? && v.value.Ext2()) || hi16;
    EvexHeadIs(reg, base, v, ty, code, x, c, mask, hi16);
    EvexFields(reg, base, v, ty, code, x, c, mask, hi16, X3, B4, X4, z, V4);
    FieldsDecode(reg.Ext(), X3, base.Ext(), reg.Ext2(), B4, GetMap(ty), ty.ew1, Idx(v), X4, GetPP(ty), z, c.ll, c.b, V4, mask, code, rest);
  }

  lemma EvexFields(reg: Operand, base: Operand, v: Option<Operand>, ty: Type, code: u8, x: Option<Operand>, c: Control, mask: int,
                   hi16: bool, X3: bool, B4: bool, X4: bool, z: bool, V4: bool)
    requires X3 == ((x.Some? && x.value.Ext()) || (base.IsSimd() && base.Ext2())) && B4 == (base.kind == GPR && base.Ext2())
    requires X4 == (x.Some? && x.value.kind == GPR && x.value.Ext2()) && z == (ZeroOf(reg, base, v) && mask != 0)
    requires V4 == ((v.Some? && v.value.Ext2()) || hi16)
    ensures EvexPrefix(reg, base, v, ty, code, x, c, mask, hi16)
         == Prefix(true, MapAsked(ty), PrefixAsked(ty), Bit(ty.ew1), c.ll, Bit(z), Bit(c.b), mask, Bit(reg.Ext()), Bit(reg.Ext2()), Bit(base.Ext()),
                   Bit(B4), Bit(X3), Bit(X4), Idx(v) % 16, Bit(V4), code, 5)
  {}

  /** evex round trip. */
  lemma EvexDecodes(reg: Operand, base: Operand, v: Option<Operand>, ty: Type, code: u8, x: Option<Operand>, b: bool,
                    aaa: int, VL: int, hi16: bool, rest: seq<u8>)
    requires reg.Valid() && base.Valid() && (v.Some? ==> v.value.Valid()) && 0 <= aaa < 8
    requires Evex(reg, base, v, ty, code, x, b, aaa, VL, hi16).Some?
    ensures MaskOf(reg, base, v, aaa).Some? && ControlOf(reg, base, v, ty, b, VL).Some?
    ensures var p := Evex(reg, base, v, ty, code, x, b, aaa, VL, hi16).value;
      var c := ControlOf(reg, base, v, ty, b, VL).value;
      var mask := MaskOf(reg, base, v, aaa).value;
      && p.1 == c.disp8N && |p.0| == 5 && p.0[0] == 0x62
      && DecodePrefix(p.0 + rest) == Some(EvexPrefix(reg, base, v, ty, code, x, c, mask, hi16))
  {
    hide DecodePrefix, ControlOf, MaskOf, EvexPrefix, Operand.Valid;
    var c := ControlOf(reg, base, v, ty, b, VL).value;
    var mask := MaskOf(reg, base, v, aaa).value;
    ControlFits(reg, base, v, ty, b, VL);
    MaskFits(reg, base, v, aaa);
    HeadDecodes(reg, base, v, ty, code, x, c, mask, hi16, rest);
  }

  /** The decoded operand a memory operand must give; next is the address of the following instruction. */
  function PlaceFor(e: RegExp, reg: int, next: int, labels: Labels): Place {
    if e.rip then Place(None, None, 1, SignedDisp(Distance(e, next, labels)), true, reg % 8, 0)
    else PlaceOf(Optimize(e), reg, 0)
  }

  function BaseOf(op2: RegMem): Operand {
    match op2
    case Register(base) => base
    case InMemory(m) => AsOperand(Optimize(m.e).base)
  }

  function MemoryVL(m: Memory): int {
    if IsVsib(m.e) then m.e.index.bit else 0
  }

  /** What evex() or vex() put into their fields for the operands. */
  function Carried(r: Operand, v: Option<Operand>, op2: RegMem, ty: Type, code: u8, imm: Option<u8>, rm: Where): Option<Insn> {
    var tail := if imm.Some? then [imm.value] else [];
    var addr32 := op2.InMemory? && Width(op2.m.e) == 32;
    if NeedsEvex(r, v, op2, ty) then
      var base := BaseOf(op2);
      var c :- ControlOf(r, base, v, ty, op2.InMemory? && op2.m.broadcast, if op2.InMemory? then MemoryVL(op2.m) else 0);
      var mask :- MaskOf(r, base, v, if op2.InMemory? then op2.m.mask else 0);
      Some(Insn(true, addr32, MapAsked(ty), PrefixAsked(ty), Bit(ty.ew1), c.ll, Bit(ZeroOf(r, base, v) && mask != 0), Bit(c.b), mask,
                r.idx, Idx(v), rm, code, tail))
    else
      Some(Insn(false, addr32, MapAsked(ty), PrefixAsked(ty), Bit(ty.w1), Bit(ty.l1 || r.kind == YMM), 0, 0, 0,
                r.idx, Idx(v), rm, code, tail))
  }

  lemma FiveBits(o: Operand)
    requires 0 <= o.idx < 32
    ensures o.idx == o.idx % 8 + 8 * Bit(o.Ext()) + 16 * Bit(o.Ext2()) && o.idx == o.idx % 16 + 16 * Bit(o.Ext2())
    ensures o.idx >= 16 <==> o.Ext2()
  {}

  lemma DecodeRegister(p: seq<u8>, f: Prefix, modrm: u8, tail: seq<u8>, vectorRm: bool, ty: Type)
    requires |p| > 0 && p[0] != 0x67 && f.size == |p| && modrm / 64 == 3
    requires DecodePrefix(p + ([modrm] + tail)) == Some(f)
    ensures DecodeInsn(p + [modrm] + tail, vectorRm, ty, |tail|)
         == Some(InsnOf(f, false, modrm / 8 % 8, f.vvvv + 16 * f.V4,
                        Is(modrm % 8 + 8 * f.B + 16 * (if vectorRm then f.X3 else f.B4)), tail))
  {
    hide DecodePrefix;
    var bs := p + [modrm] + tail;
    var rest := [modrm] + tail;
    assert bs == p + rest;
    assert bs[0] == p[0] && bs[0..] == bs && bs[|p|..] == rest && rest[1..] == tail;
  }

  /** The register numbers of an EVEX instruction on registers, put together from its prefix and ModR/M. */
  lemma EvexNumbers(r: Operand, base: Operand, v: Option<Operand>, ty: Type, code: u8, c: Control, mask: int)
    requires r.Valid() && base.Valid() && (v.Some? ==> v.value.Valid())
    ensures var f := EvexPrefix(r, base, v, ty, code, None, c, mask, false);
      && r.idx % 8 + 8 * f.R + 16 * f.Rp == r.idx && f.vvvv + 16 * f.V4 == Idx(v)
      && base.idx % 8 + 8 * f.B + 16 * (if base.IsSimd() then f.X3 else f.B4) == base.idx
  {
    FiveBits(r); FiveBits(base);
    if v.Some? { FiveBits(v.value); }
    hide GetMap, GetPP, MapAsked, PrefixAsked, ZeroOf, Operand.Ext;
  }

  lemma VexNumbers(r: Operand, base: Operand, v: Option<Operand>, ty: Type, code: u8, x: bool, size: nat)
    requires r.Valid() && base.Valid() && (v.Some? ==> v.value.Valid()) && r.idx < 16 && base.idx < 16 && Idx(v) < 16
    ensures var f := VexPrefix(r, base, v, ty, code, x, size);
      && r.idx % 8 + 8 * f.R + 16 * f.Rp == r.idx && f.vvvv + 16 * f.V4 == Idx(v)
      && base.idx % 8 + 8 * f.B == base.idx
  {
    FiveBits(r); FiveBits(base);
    if v.Some? { FiveBits(v.value); }
    hide GetMap, GetPP, MapAsked, PrefixAsked, Operand.Ext;
  }

  lemma EvexRegisterForm(r: Operand, v: Option<Operand>, base: Operand, ty: Type, code: u8, tail: seq<u8>)
    requires r.Valid() && base.Valid() && (v.Some? ==> v.value.Valid())
    requires Evex(r, base, v, ty, code, None, false, 0, 0, false).Some?
    ensures MaskOf(r, base, v, 0).Some? && ControlOf(r, base, v, ty, false, 0).Some?
    ensures var c, mask := ControlOf(r, base, v, ty, false, 0).value, MaskOf(r, base, v, 0).value;
      DecodeInsn(Evex(r, base, v, ty, code, None, false, 0, 0, false).value.0 + [ModRM(3, r.idx, base.idx)] + tail,
                 base.IsSimd(), ty, |tail|)
      == Some(Insn(true, false, MapAsked(ty), PrefixAsked(ty), Bit(ty.ew1), c.ll, Bit(ZeroOf(r, base, v) && mask != 0), Bit(c.b), mask,
                   r.idx, Idx(v), Is(base.idx), code, tail))
  {
    hide Evex, DecodePrefix, DecodeInsn, EvexPrefix, ControlOf, MaskOf, ZeroOf, GetMap, GetPP, MapAsked, PrefixAsked, Operand.Ext, Operand.Ext2, Operand.Valid;
    var modrm := ModRM(3, r.idx, base.idx);
    EvexDecodes(r, base, v, ty, code, None, false, 0, 0, false, [modrm] + tail);
    var p := Evex(r, base, v, ty, code, None, false, 0, 0, false).value.0;
    var c, mask := ControlOf(r, base, v, ty, false, 0).value, MaskOf(r, base, v, 0).value;
    var f := EvexPrefix(r, base, v, ty, code, None, c, mask, false);
    EvexPrefixIs(r, base, v, ty, code, None, c, mask, false);
    DecodeRegister(p, f, modrm, tail, base.IsSimd(), ty);
    EvexNumbers(r, base, v, ty, code, c, mask);
  }

  lemma EvexPrefixIs(r: Operand, base: Operand, v: Option<Operand>, ty: Type, code: u8, x: Option<Operand>, c: Control,
                     mask: int, hi16: bool)
    ensures var f := EvexPrefix(r, base, v, ty, code, x, c, mask, hi16);
      && f.evex && f.opmap == MapAsked(ty) && f.pp == PrefixAsked(ty) && f.w == Bit(ty.ew1) && f.ll == c.ll
      && f.z == Bit(ZeroOf(r, base, v) && mask != 0) && f.b == Bit(c.b) && f.aaa == mask && f.opcode == code && f.size == 5
  {}

  lemma VexRegisterForm(r: Operand, v: Option<Operand>, base: Operand, ty: Type, code: u8, tail: seq<u8>)
    requires r.Valid() && base.Valid() && (v.Some? ==> v.value.Valid()) && OneMap(ty)
    requires Vex(r, base, v, ty, code, false).Some?
    ensures DecodeInsn(Vex(r, base, v, ty, code, false).value + [ModRM(3, r.idx, base.idx)] + tail, base.IsSimd(), ty, |tail|)
      == Some(Insn(false, false, MapAsked(ty), PrefixAsked(ty), Bit(ty.w1), Bit(ty.l1 || r.kind == YMM), 0, 0, 0,
                   r.idx, Idx(v), Is(base.idx), code, tail))
  {
    hide Vex, DecodePrefix, DecodeInsn, Operand.Ext, Operand.Ext2, GetMap, GetPP, MapAsked, PrefixAsked, Operand.Valid, OneMap;
    var modrm := ModRM(3, r.idx, base.idx);
    VexDecodes(r, base, v, ty, code, false, [modrm] + tail);
    VexSmall(r, base, v, ty, code, false);
    var p := Vex(r, base, v, ty, code, false).value;
    var f := VexPrefix(r, base, v, ty, code, false, |p|);
    DecodeRegister(p, f, modrm, tail, base.IsSimd(), ty);
    VexNumbers(r, base, v, ty, code, false, |p|);
  }

  lemma VexSmall(r: Operand, base: Operand, v: Option<Operand>, ty: Type, code: u8, x: bool)
    requires Vex(r, base, v, ty, code, x).Some?
    ensures r.idx < 16 && base.idx < 16 && Idx(v) < 16
  {}

  /** opVex on registers: the bytes of the whole instruction decode to what evex() or vex() put together. */
  lemma RegisterFormReads(r: Operand, v: Option<Operand>, base: Operand, ty: Type, code: u8, imm: Option<u8>, at: int,
                            auto: bool, labels: Labels)
    requires Fits(r, v, Register(base)) && OneMap(ty)
    requires OpVex(r, v, Register(base), ty, code, imm, at, auto, labels).Some?
    ensures var bs := OpVex(r, v, Register(base), ty, code, imm, at, auto, labels).value;
      var meant := Carried(r, v, Register(base), ty, code, imm, Is(base.idx));
      meant.Some? && DecodeInsn(bs, base.IsSimd(), ty, if imm.Some? then 1 else 0) == meant
  {
    var tail := if imm.Some? then [imm.value] else [];
    hide DecodePrefix, Evex, Vex, ControlOf, MaskOf, ZeroOf, GetMap, GetPP, MapAsked, PrefixAsked, DecodeInsn, NeedsEvex, ModRM, OneMap, Operand.Valid;
    if NeedsEvex(r, v, Register(base), ty) { EvexRegisterForm(r, v, base, ty, code, tail); }
    else { VexRegisterForm(r, v, base, ty, code, tail); }
  }

  lemma DecodeMemory(o: seq<u8>, p: seq<u8>, f: Prefix, a: seq<u8>, tail: seq<u8>, ty: Type, place: Place)
    requires (o == [] || o == [0x67]) && |p| > 0 && p[0] != 0x67 && f.size == |p|
    requires DecodePrefix(p + (a + tail)) == Some(f) && place.size == |a|
    requires DecodePlace(a + tail, Extension(f.B, f.B4, f.X3, if ty.vsib then f.V4 else f.X4), ty.vsib,
                         if f.evex then TupleN(ty, f.b, f.ll) else 1) == Some(place)
    ensures DecodeInsn(o + p + a + tail, false, ty, |tail|)
         == Some(InsnOf(f, |o| == 1, place.reg, f.vvvv + (if ty.vsib then 0 else 16 * f.V4), At(place.(size := 0), ty.vsib), tail))
  {
    hide DecodePrefix, TupleN, InsnOf, DecodePlace;
    var rest := a + tail;
    PlaceHasBytes(rest, Extension(f.B, f.B4, f.X3, if ty.vsib then f.V4 else f.X4), ty.vsib, if f.evex then TupleN(ty, f.b, f.ll) else 1);
    Parts(o, p, a, tail);
  }

  lemma Parts(o: seq<u8>, p: seq<u8>, a: seq<u8>, tail: seq<u8>)
    requires |p| > 0
    ensures var bs := o + p + a + tail; bs[|o|..] == p + (a + tail) && bs[|o|..][|p|..] == a + tail && |bs| > 0
    ensures var bs := o + p + a + tail; (o == [] ==> bs[0] == p[0]) && (|o| == 1 ==> bs[0] == o[0])
    ensures (a + tail)[|a|..] == tail
  {}

  lemma NoOperand(o: seq<u8>, p: seq<u8>, f: Prefix, tail: seq<u8>, ty: Type)
    requires (o == [] || o == [0x67]) && |p| > 0 && p[0] != 0x67 && f.size == |p|
    requires DecodePrefix(p + tail) == Some(f) && |tail| <= 1
    ensures DecodeInsn(o + p + tail, false, ty, |tail|) == None
  {
    var bs := o + p + tail;
    hide DecodePrefix, TupleN, InsnOf, DecodePlace;
    assert (bs[0] == 0x67 <==> o != []) by { assert bs[0] == if o == [] then p[0] else o[0]; }
    assert bs[|o|..] == p + tail;
    assert (p + tail)[f.size..] == tail;
    if |tail| == 1 && tail[0] / 64 != 3 {
      PlaceHasBytes(tail, Extension(f.B, f.B4, f.X3, if ty.vsib then f.V4 else f.X4), ty.vsib, if f.evex then TupleN(ty, f.b, f.ll) else 1);
    }
  }

  lemma PlaceHasBytes(bs: seq<u8>, x: Extension, vector: bool, n: nat)
    ensures DecodePlace(bs, x, vector, n).Some? ==>
      DecodePlace(bs, x, vector, n).value.size >= 1 && |bs| > 0 && bs[0] / 64 != 3
  {}

  /** disp8N is a power of two. */
  lemma Disp8NDivides(ty: Type, b: bool, VL: int)
    requires ty.nx < 8
    ensures Disp8N(ty, b, VL) > 0 && W32 % Disp8N(ty, b, VL) == 0
  {
    assert Power(0) == 1 && Power(1) == 2 && Power(2) == 4 && Power(3) == 8;
    assert Power(4) == 16 && Power(5) == 32;
  }

  /** For vectors of 128, 256 and 512 bits it is what the tuple type says. */
  lemma Disp8NIsTuple(ty: Type, b: bool, VL: int)
    requires ty.nx < 8 && VL in {128, 256, 512}
    ensures Disp8N(ty, b, VL) == TupleN(ty, Bit(b), if VL >= 512 then 2 else if VL == 256 then 1 else 0)
  {
    assert Power(4) == 16;
  }

  /** opAddr round trip, for a decoder with the extension bits x and the factor n. */
  lemma AddrDecodes(e: RegExp, reg: int, disp8N: nat, at: int, immSize: nat, auto: bool, labels: Labels, rest: seq<u8>, x: Extension, n: nat)
    requires Encodable(e) && Placeable(e) && ModeOf(e) != Disp64 && (disp8N == 0 || W32 % disp8N == 0)
    requires EncodeAddr(e, reg, disp8N, IsVsib(e), at, immSize, auto, labels).Some? && (e.rip || x == ExtensionOf(Optimize(e)))
    ensures var a := EncodeAddr(e, reg, disp8N, IsVsib(e), at, immSize, auto, labels).value;
      var place := DecodePlace(a + rest, x, Vector(e.index), n);
      && place.Some? && place.value.size == |a|
      && place.value.(size := 0)
      == if e.rip then PlaceFor(e, reg, at + |a| + immSize, labels)
         else PlaceFor(e, reg, at + |a| + immSize, labels).(disp := ReadDisp(Optimize(e), disp8N, n))
  {
    hide DecodePlace, EncodeSIB, ReadDisp, SignedDisp, DispFits, Wrap, ModRM;
    if e.rip {
      RelativeDecodes(reg, Distance(e, at + 5 + immSize, labels), rest, x, Vector(e.index), n);
    } else {
      OptimizeEncodable(e);
      SIBDecodesAs(Optimize(e), reg, disp8N, rest, n);
    }
  }

  lemma OptimizeEncodable(e: RegExp)
    requires Encodable(e)
    ensures Encodable(Optimize(e)) && Optimize(e).index == e.index && Optimize(e).disp == e.disp
  {}

  /** The prefix of a memory form and what it leaves for the address. */
  lemma EvexMemory(r: Operand, v: Option<Operand>, m: Memory, ty: Type, code: u8, rest: seq<u8>)
    requires Fits(r, v, InMemory(m)) && OneMap(ty) && NeedsEvex(r, v, InMemory(m), ty)
    requires MemoryPrefix(r, v, m, ty, code).Some?
    ensures var e := Optimize(m.e); var base, index := AsOperand(e.base), AsOperand(e.index);
      var cc, mm := ControlOf(r, base, v, ty, m.broadcast, MemoryVL(m)), MaskOf(r, base, v, m.mask);
      var p := MemoryPrefix(r, v, m, ty, code).value;
      && cc.Some? && mm.Some? && p.1 == cc.value.disp8N && |p.0| == 5 && p.0[0] == 0x62
      && p.1 > 0 && W32 % p.1 == 0
      && DecodePrefix(p.0 + rest)
      == Some(EvexPrefix(r, base, v, ty, code, Some(index), cc.value, mm.value, index.IsSimd() && index.Ext2()))
  {
    var e := Optimize(m.e);
    OptimizeEncodable(m.e);
    var base, index := AsOperand(e.base), AsOperand(e.index);
    assert base.Valid();
    hide DecodePrefix, Evex, ControlOf, MaskOf, EvexPrefix, Encodable, Optimize;
    EvexDecodes(r, base, v, ty, code, Some(index), m.broadcast, m.mask, MemoryVL(m), index.IsSimd() && index.Ext2(), rest);
    ControlDivides(r, base, v, ty, m.broadcast, MemoryVL(m));
  }

  lemma ControlDivides(r: Operand, base: Operand, v: Option<Operand>, ty: Type, b: bool, VL: int)
    requires ty.nx < 8 && ControlOf(r, base, v, ty, b, VL).Some?
    ensures var n := ControlOf(r, base, v, ty, b, VL).value.disp8N; n > 0 && W32 % n == 0
  {
    Disp8NDivides(ty, b, Length(r, base, v, VL));
    hide Disp8N;
  }

  lemma VexMemory(r: Operand, v: Option<Operand>, m: Memory, ty: Type, code: u8, rest: seq<u8>)
    requires Fits(r, v, InMemory(m)) && OneMap(ty) && !NeedsEvex(r, v, InMemory(m), ty)
    requires MemoryPrefix(r, v, m, ty, code).Some?
    ensures var e := Optimize(m.e); var base, index := AsOperand(e.base), AsOperand(e.index);
      var p := MemoryPrefix(r, v, m, ty, code).value;
      && p.1 == 0 && 3 <= |p.0| <= 4 && p.0[0] != 0x67 && r.idx < 16 && base.idx < 16 && Idx(v) < 16
      && DecodePrefix(p.0 + rest) == Some(VexPrefix(r, base, v, ty, code, index.Ext(), |p.0|))
  {
    var e := Optimize(m.e);
    var base, index := AsOperand(e.base), AsOperand(e.index);
    hide DecodePrefix, Vex, VexPrefix, Encodable, Optimize;
    VexDecodes(r, base, v, ty, code, index.Ext(), rest);
    VexSmall(r, base, v, ty, code, index.Ext());
  }

  lemma PlainBits(g: Reg)
    ensures Bit(AsOperand(g).Ext()) == g.idx / 8 % 2 && Bit(AsOperand(g).Ext2()) == g.idx / 16 % 2
  {}

  /** The register numbers in an EVEX prefix, and its extension bits: those of the address, unless V' has to serve
      two registers. */
  lemma EvexExtension(r: Operand, v: Option<Operand>, m: Memory, ty: Type, code: u8, c: Control, mask: int)
    requires Fits(r, v, InMemory(m)) && ty.vsib == IsVsib(m.e)
    ensures var e := Optimize(m.e); var base, index := AsOperand(e.base), AsOperand(e.index);
      var f := EvexPrefix(r, base, v, ty, code, Some(index), c, mask, index.IsSimd() && index.Ext2());
      && (ty.vsib ==> f.vvvv == Idx(v) % 16)
      && (!ty.vsib || Idx(v) < 16 ==>
        && f.vvvv + (if ty.vsib then 0 else 16 * f.V4) == Idx(v)
        && Extension(f.B, f.B4, f.X3, if ty.vsib then f.V4 else f.X4) == ExtensionOf(e))
  {
    var e := Optimize(m.e);
    OptimizeEncodable(m.e);
    IndexKind(m.e);
    hide Optimize, Fits, Encodable, IsVsib, UsesRex2;
    PlainBits(e.base);
    PlainBits(e.index);
    if v.Some? { FiveBits(v.value); }
    EvexBits(r, AsOperand(e.base), AsOperand(e.index), v, ty, code, c, mask, AsOperand(e.index).IsSimd() && AsOperand(e.index).Ext2());
    hide Operand.Ext, Operand.Ext2, EvexPrefix, AsOperand;
  }

  lemma IndexKind(e: RegExp)
    requires Encodable(e) && e.index.bit != 8192
    ensures var o := Optimize(e);
      && AsOperand(o.base).kind == GPR && AsOperand(o.index).kind == (if IsVsib(e) then AsOperand(o.index).kind else GPR)
      && (AsOperand(o.index).IsSimd() <==> IsVsib(e))
  {}

  lemma EvexBits(r: Operand, base: Operand, index: Operand, v: Option<Operand>, ty: Type, code: u8, c: Control, mask: int, hi16: bool)
    requires base.kind == GPR
    ensures var f := EvexPrefix(r, base, v, ty, code, Some(index), c, mask, hi16);
      && f.vvvv == Idx(v) % 16 && f.V4 == Bit((v.Some? && v.value.Ext2()) || hi16) && f.B == Bit(base.Ext())
      && f.B4 == Bit(base.Ext2()) && f.X3 == Bit(index.Ext()) && f.X4 == Bit(index.kind == GPR && index.Ext2())
  {}

  lemma VexExtension(r: Operand, v: Option<Operand>, m: Memory, ty: Type, code: u8, size: nat)
    requires Fits(r, v, InMemory(m)) && ty.vsib == IsVsib(m.e)
    requires r.idx < 16 && Idx(v) < 16 && Optimize(m.e).base.idx < 16 && !UsesRex2(m.e)
    ensures var e := Optimize(m.e); var base, index := AsOperand(e.base), AsOperand(e.index);
      var f := VexPrefix(r, base, v, ty, code, index.Ext(), size);
      && f.vvvv == Idx(v) && f.V4 == 0 && f.X4 == 0 && r.idx % 8 + 8 * f.R + 16 * f.Rp == r.idx
      && Extension(f.B, f.B4, f.X3, 0) == ExtensionOf(e).(x4 := 0)
      && (!ty.vsib || e.index.idx < 16 ==> ExtensionOf(e).x4 == 0)
  {
    var e := Optimize(m.e);
    OptimizeEncodable(m.e);
    PlainBits(e.base);
    PlainBits(e.index);
    FiveBits(r);
    if v.Some? { FiveBits(v.value); }
    hide Optimize, GetMap, GetPP, MapAsked, PrefixAsked, Operand.Ext;
  }

  /** disp8N is the factor of the decoder, or it does not matter. */
  predicate TupleFits(ty: Type, c: Control, e: RegExp)
    requires 0 <= e.disp
  {
    TupleN(ty, Bit(c.b), c.ll) == c.disp8N || e.disp == 0 || ModDisp(Optimize(e).base, e.disp % W32, c.disp8N).0 != 1
  }

  /** When the fields can be read back. */
  predicate Readable(r: Operand, v: Option<Operand>, m: Memory, ty: Type)
    requires Fits(r, v, InMemory(m))
  {
    && ModeOf(m.e) != Disp64
    && (if NeedsEvex(r, v, InMemory(m), ty) then
          var c := ControlOf(r, AsOperand(Optimize(m.e).base), v, ty, m.broadcast, MemoryVL(m));
          (IsVsib(m.e) ==> Idx(v) < 16) && (m.e.rip || (c.Some? && TupleFits(ty, c.value, m.e)))
        else IsVsib(m.e) ==> m.e.index.idx < 16)
  }

  lemma DecodedV(o: seq<u8>, p: seq<u8>, f: Prefix, a: seq<u8>, tail: seq<u8>, ty: Type)
    requires (o == [] || o == [0x67]) && |p| > 0 && p[0] != 0x67 && f.size == |p|
    requires DecodePrefix(p + (a + tail)) == Some(f) && |a + tail| > 0 && (a + tail)[0] / 64 != 3 && ty.vsib
    ensures var d := DecodeInsn(o + p + a + tail, false, ty, |tail|); d.Some? ==> d.value.v == f.vvvv
  {
    hide DecodePrefix, TupleN, DecodePlace;
    Parts(o, p, a, tail);
  }

  lemma AddrIsMemory(e: RegExp, reg: int, disp8N: nat, permit: bool, at: int, immSize: nat, auto: bool, labels: Labels)
    requires Placeable(e) && ModeOf(e) != Disp64 && EncodeAddr(e, reg, disp8N, permit, at, immSize, auto, labels).Some?
    ensures var a := EncodeAddr(e, reg, disp8N, permit, at, immSize, auto, labels).value; |a| > 0 && a[0] / 64 != 3
  {
    hide ModDisp, ModRM, LE;
  }

  /** The instruction meant, in terms of the prefix fields. */
  lemma CarriedEvex(r: Operand, v: Option<Operand>, m: Memory, ty: Type, code: u8, imm: Option<u8>, c: Control, mask: int,
                  w: Where, n: int, p: Where)
    requires Fits(r, v, InMemory(m)) && NeedsEvex(r, v, InMemory(m), ty)
    requires ControlOf(r, AsOperand(Optimize(m.e).base), v, ty, m.broadcast, MemoryVL(m)) == Some(c)
    requires MaskOf(r, AsOperand(Optimize(m.e).base), v, m.mask) == Some(mask)
    ensures var e := Optimize(m.e); var base, index := AsOperand(e.base), AsOperand(e.index);
      var f := EvexPrefix(r, base, v, ty, code, Some(index), c, mask, index.IsSimd() && index.Ext2());
      var d := Carried(r, v, InMemory(m), ty, code, imm, w);
      && f.size == 5 && f.evex && f.ll == c.ll && f.b == Bit(c.b)
      && d.Some? && d.value.v == Idx(v) && d.value.rm == w
      && InsnOf(f, Width(m.e) == 32, r.idx % 8, n, p, if imm.Some? then [imm.value] else []) == d.value.(v := n, rm := p)
  {
    FiveBits(r);
    hide NeedsEvex, ControlOf, MaskOf, ZeroOf, GetMap, GetPP, MapAsked, PrefixAsked, Optimize, Operand.Ext, Operand.Ext2;
  }

  lemma CarriedVex(r: Operand, v: Option<Operand>, m: Memory, ty: Type, code: u8, imm: Option<u8>, size: nat, w: Where, n: int, p: Where)
    requires Fits(r, v, InMemory(m)) && !NeedsEvex(r, v, InMemory(m), ty) && r.idx < 16
    ensures var e := Optimize(m.e); var base, index := AsOperand(e.base), AsOperand(e.index);
      var f := VexPrefix(r, base, v, ty, code, index.Ext(), size);
      var d := Carried(r, v, InMemory(m), ty, code, imm, w);
      && f.size == size && !f.evex && d.Some? && d.value.v == Idx(v) && d.value.rm == w
      && InsnOf(f, Width(m.e) == 32, r.idx % 8, n, p, if imm.Some? then [imm.value] else []) == d.value.(v := n, rm := p)
  {
    FiveBits(r);
    hide NeedsEvex, GetMap, GetPP, MapAsked, PrefixAsked, Optimize, Operand.Ext;
  }

  /** What the decoder makes of the bytes, given the prefix and the place it reads. */
  lemma Decodes(o: seq<u8>, p: seq<u8>, f: Prefix, a: seq<u8>, tail: seq<u8>, ty: Type, place: Place, d: Insn, reg: int, n: int)
    requires (o == [] || o == [0x67]) && |p| > 0 && p[0] != 0x67 && f.size == |p|
    requires DecodePrefix(p + (a + tail)) == Some(f) && place.size == |a| && place.reg == reg
    requires DecodePlace(a + tail, Extension(f.B, f.B4, f.X3, if ty.vsib then f.V4 else f.X4), ty.vsib,
                         if f.evex then TupleN(ty, f.b, f.ll) else 1) == Some(place)
    requires n == f.vvvv + (if ty.vsib then 0 else 16 * f.V4)
    requires InsnOf(f, |o| == 1, reg, n, At(place.(size := 0), ty.vsib), tail) == d.(v := n, rm := At(place.(size := 0), ty.vsib))
    ensures DecodeInsn(o + p + a + tail, false, ty, |tail|) == Some(d.(v := n, rm := At(place.(size := 0), ty.vsib)))
  {
    hide *;
    DecodeMemory(o, p, f, a, tail, ty, place);
  }

  lemma VectorIsVsib(e: RegExp)
    requires Encodable(e) && e.index.bit != 8192
    ensures Vector(e.index) == IsVsib(e)
  {}

  lemma PlaceForReg(e: RegExp, reg: int, next: int, labels: Labels)
    ensures PlaceFor(e, reg, next, labels).reg == reg % 8
    ensures !e.rip ==> PlaceFor(e, reg, next, labels).disp == SignedDisp(e.disp)
  {}

  lemma AddrFits(e: RegExp, reg: int, disp8N: nat, permit: bool, at: int, immSize: nat, auto: bool, labels: Labels)
    requires Placeable(e) && ModeOf(e) == AsModRM && EncodeAddr(e, reg, disp8N, permit, at, immSize, auto, labels).Some?
    ensures DispFits(e.disp)
  {}

  /** What a decoder with factor n reads where e was written, and when that is what was meant. */
  lemma PlaceRead(e: RegExp, reg: int, disp8N: nat, at: int, immSize: nat, auto: bool, labels: Labels, rest: seq<u8>, a: seq<u8>, n: nat)
      returns (place: Place)
    requires Encodable(e) && Placeable(e) && e.index.bit != 8192 && ModeOf(e) != Disp64
    requires disp8N == 0 || W32 % disp8N == 0
    requires EncodeAddr(e, reg, disp8N, IsVsib(e), at, immSize, auto, labels) == Some(a)
    ensures DecodePlace(a + rest, ExtensionOf(Optimize(e)), IsVsib(e), n) == Some(place)
    ensures place.size == |a| && place.reg == reg % 8
    ensures place.(size := 0) == PlaceFor(e, reg, at + |a| + immSize, labels) <==>
      e.rip || n == Factor(disp8N) || e.disp == 0 || ModDisp(Optimize(e).base, e.disp % W32, disp8N).0 != 1
  {
    OptimizeEncodable(e);
    VectorIsVsib(e);
    AddrDecodes(e, reg, disp8N, at, immSize, auto, labels, rest, ExtensionOf(Optimize(e)), n);
    place := DecodePlace(a + rest, ExtensionOf(Optimize(e)), Vector(e.index), n).value;
    PlaceForReg(e, reg, at + |a| + immSize, labels);
    if !e.rip {
      AddrFits(e, reg, disp8N, IsVsib(e), at, immSize, auto, labels);
      ReadDispIs(Optimize(e), disp8N, n);
    }
    hide DecodePlace, PlaceFor, Optimize, Encodable, ExtensionOf, ReadDisp, ModDisp, SignedDisp, EncodeAddr, DispFits, Factor, IsVsib;
  }

  /** Decoding gives d back exactly if the place read is the one in d. */
  lemma DecodesTo(o: seq<u8>, p: seq<u8>, f: Prefix, a: seq<u8>, tail: seq<u8>, ty: Type, place: Place, d: Insn, reg: int)
    requires (o == [] || o == [0x67]) && |p| > 0 && p[0] != 0x67 && f.size == |p|
    requires DecodePrefix(p + (a + tail)) == Some(f) && place.size == |a| && place.reg == reg
    requires DecodePlace(a + tail, Extension(f.B, f.B4, f.X3, if ty.vsib then f.V4 else f.X4), ty.vsib,
                         if f.evex then TupleN(ty, f.b, f.ll) else 1) == Some(place)
    requires d.v == f.vvvv + (if ty.vsib then 0 else 16 * f.V4)
    requires InsnOf(f, |o| == 1, reg, d.v, At(place.(size := 0), ty.vsib), tail) == d.(rm := At(place.(size := 0), ty.vsib))
    ensures DecodeInsn(o + p + a + tail, false, ty, |tail|) == Some(d) <==> d.rm == At(place.(size := 0), ty.vsib)
  {
    hide *;
    Decodes(o, p, f, a, tail, ty, place, d, reg, d.v);
  }

  lemma MemoryBytes(r: Operand, v: Option<Operand>, m: Memory, ty: Type, code: u8, imm: Option<u8>, at: int, auto: bool, labels: Labels)
      returns (o: seq<u8>, p: (seq<u8>, nat), a: seq<u8>, tail: seq<u8>)
    requires Fits(r, v, InMemory(m)) && OpVex(r, v, InMemory(m), ty, code, imm, at, auto, labels).Some?
    ensures MemoryPrefix(r, v, m, ty, code) == Some(p)
    ensures o == Override(m.e) && tail == (if imm.Some? then [imm.value] else [])
    ensures EncodeAddr(m.e, r.idx, p.1, ty.vsib, at + |o + p.0|, |tail|, auto, labels) == Some(a)
    ensures OpVex(r, v, InMemory(m), ty, code, imm, at, auto, labels) == Some(o + p.0 + a + tail)
    ensures (o == [] || o == [0x67]) && (|o| == 1 <==> Width(m.e) == 32) && |tail| <= 1
  {
    hide MemoryPrefix, EncodeAddr, Width;
    o, p := Override(m.e), MemoryPrefix(r, v, m, ty, code).value;
    tail := if imm.Some? then [imm.value] else [];
    a := EncodeAddr(m.e, r.idx, p.1, ty.vsib, at + |o + p.0|, |tail|, auto, labels).value;
  }

  lemma NothingWritten(e: RegExp, reg: int, disp8N: nat, permit: bool, at: int, immSize: nat, auto: bool, labels: Labels)
    requires Placeable(e) && ModeOf(e) == Disp64 && EncodeAddr(e, reg, disp8N, permit, at, immSize, auto, labels).Some?
    ensures EncodeAddr(e, reg, disp8N, permit, at, immSize, auto, labels).value == []
  {}

  lemma EvexMemoryForm(r: Operand, v: Option<Operand>, m: Memory, ty: Type, code: u8, imm: Option<u8>, at: int, auto: bool, labels: Labels)
    requires Fits(r, v, InMemory(m)) && OneMap(ty) && ty.vsib == IsVsib(m.e) && NeedsEvex(r, v, InMemory(m), ty)
    requires OpVex(r, v, InMemory(m), ty, code, imm, at, auto, labels).Some?
    ensures var bs := OpVex(r, v, InMemory(m), ty, code, imm, at, auto, labels).value;
      DecodeInsn(bs, false, ty, if imm.Some? then 1 else 0)
      == Carried(r, v, InMemory(m), ty, code, imm, At(PlaceFor(m.e, r.idx, at + |bs|, labels), IsVsib(m.e)))
      <==> Readable(r, v, m, ty)
  {
    hide OpVex, DecodePrefix, DecodeInsn, EvexPrefix, Carried, MemoryPrefix, NeedsEvex, ControlOf, MaskOf, InsnOf, DecodePlace,
      EncodeAddr, PlaceFor, TupleN, Optimize, Encodable, ExtensionOf, ReadDisp, ModDisp, Override, ModeOf, IsVsib, OneMap, Width;
    var o, p, a, tail := MemoryBytes(r, v, m, ty, code, imm, at, auto, labels);
    var e := Optimize(m.e);
    var base, index := AsOperand(e.base), AsOperand(e.index);
    EvexMemory(r, v, m, ty, code, a + tail);
    var c := ControlOf(r, base, v, ty, m.broadcast, MemoryVL(m)).value;
    var mask := MaskOf(r, base, v, m.mask).value;
    var hi16 := index.IsSimd() && index.Ext2();
    var f := EvexPrefix(r, base, v, ty, code, Some(index), c, mask, hi16);
    var w := At(PlaceFor(m.e, r.idx, at + |o + p.0 + a + tail|, labels), IsVsib(m.e));
    hide AsOperand, Operand.Ext, Operand.Ext2, Operand.IsSimd, MemoryVL;
    CarriedEvex(r, v, m, ty, code, imm, c, mask, w, Idx(v), w);
    var d := Carried(r, v, InMemory(m), ty, code, imm, w).value;
    EvexExtension(r, v, m, ty, code, c, mask);
    hide Fits;
    if ModeOf(m.e) == Disp64 {
      NothingWritten(m.e, r.idx, p.1, ty.vsib, at + |o + p.0|, |tail|, auto, labels);
      assert a + tail == tail && o + p.0 + a + tail == o + p.0 + tail;
      NoOperand(o, p.0, f, tail, ty);
    } else if ty.vsib && Idx(v) >= 16 {
      AddrIsMemory(m.e, r.idx, p.1, ty.vsib, at + |o + p.0|, |tail|, auto, labels);
      DecodedV(o, p.0, f, a, tail, ty);
    } else {
      var n := TupleN(ty, f.b, f.ll);
      var place := PlaceRead(m.e, r.idx, p.1, at + |o + p.0|, |tail|, auto, labels, tail, a, n);
      CarriedEvex(r, v, m, ty, code, imm, c, mask, w, Idx(v), At(place.(size := 0), ty.vsib));
      DecodesTo(o, p.0, f, a, tail, ty, place, d, r.idx % 8);
      assert at + |o + p.0| + |a| + |tail| == at + |o + p.0 + a + tail|;
    }
  }

  /** The address with the vector register a VEX prefix can name instead. */
  function LowIndex(e: RegExp): RegExp {
    e.(index := Reg(e.index.idx - 16, e.index.bit))
  }

  lemma LowIndexIs(e: RegExp, reg: int, at: int, immSize: nat, auto: bool, labels: Labels, next: int)
    requires Encodable(e) && Placeable(e) && IsVsib(e) && e.index.idx >= 16
    ensures var l := LowIndex(e);
      && Encodable(l) && IsVsib(l) && Placeable(l) && (ModeOf(l) == ModeOf(e))
      && EncodeAddr(l, reg, 0, true, at, immSize, auto, labels) == EncodeAddr(e, reg, 0, true, at, immSize, auto, labels)
      && ExtensionOf(Optimize(l)) == ExtensionOf(Optimize(e)).(x4 := 0)
      && PlaceFor(l, reg, next, labels) != PlaceFor(e, reg, next, labels)
  {
    hide ModDisp, Tail, ModRM, SS, DispFits, SignedDisp;
    assert (e.index.idx - 16) % 8 == e.index.idx % 8 && (e.index.idx - 16) / 8 % 2 == e.index.idx / 8 % 2;
    assert Optimize(LowIndex(e)) == LowIndex(e) && Optimize(e) == e;
    assert forall m | 0 <= m < 3 :: Head(LowIndex(e), reg, m) == Head(e, reg, m);
    assert EncodeSIB(LowIndex(e), reg, 0) == EncodeSIB(e, reg, 0) by { TailSame(e, LowIndex(e)); }
  }

  lemma TailSame(e: RegExp, l: RegExp)
    requires e.base == l.base && e.disp == l.disp
    ensures forall m, d :: Tail(e, m, d) == Tail(l, m, d)
  {}

  lemma VexNothing(r: Operand, v: Option<Operand>, m: Memory, ty: Type, code: u8, imm: Option<u8>, at: int, auto: bool, labels: Labels, w: Where)
    requires Fits(r, v, InMemory(m)) && OneMap(ty) && !NeedsEvex(r, v, InMemory(m), ty) && ModeOf(m.e) == Disp64
    requires OpVex(r, v, InMemory(m), ty, code, imm, at, auto, labels).Some?
    ensures Carried(r, v, InMemory(m), ty, code, imm, w).Some?
    ensures var bs := OpVex(r, v, InMemory(m), ty, code, imm, at, auto, labels).value;
      DecodeInsn(bs, false, ty, if imm.Some? then 1 else 0) == None
  {
    hide OpVex, DecodePrefix, DecodeInsn, VexPrefix, Carried, MemoryPrefix, NeedsEvex, InsnOf, DecodePlace,
      EncodeAddr, PlaceFor, TupleN, Optimize, ExtensionOf, ReadDisp, ModDisp, Override, ModeOf, IsVsib, OneMap, Width, UsesRex2;
    var o, p, a, tail := MemoryBytes(r, v, m, ty, code, imm, at, auto, labels);
    VexMemory(r, v, m, ty, code, a + tail);
    var e := Optimize(m.e);
    hide Fits;
    var f := VexPrefix(r, AsOperand(e.base), v, ty, code, AsOperand(e.index).Ext(), |p.0|);
    hide AsOperand, Operand.Ext;
    NothingWritten(m.e, r.idx, p.1, ty.vsib, at + |o + p.0|, |tail|, auto, labels);
    assert a + tail == tail && o + p.0 + a + tail == o + p.0 + tail;
    CarriedVex(r, v, m, ty, code, imm, |p.0|, w, Idx(v), w);
    NoOperand(o, p.0, f, tail, ty);
  }

  lemma VexSomething(r: Operand, v: Option<Operand>, m: Memory, ty: Type, code: u8, imm: Option<u8>, at: int, auto: bool, labels: Labels)
    requires Fits(r, v, InMemory(m)) && OneMap(ty) && ty.vsib == IsVsib(m.e) && !NeedsEvex(r, v, InMemory(m), ty)
    requires ModeOf(m.e) != Disp64 && OpVex(r, v, InMemory(m), ty, code, imm, at, auto, labels).Some?
    ensures var bs := OpVex(r, v, InMemory(m), ty, code, imm, at, auto, labels).value;
      DecodeInsn(bs, false, ty, if imm.Some? then 1 else 0)
      == Carried(r, v, InMemory(m), ty, code, imm, At(PlaceFor(m.e, r.idx, at + |bs|, labels), IsVsib(m.e)))
      <==> (IsVsib(m.e) ==> m.e.index.idx < 16)
  {
    hide OpVex, DecodePrefix, DecodeInsn, VexPrefix, Carried, MemoryPrefix, NeedsEvex, InsnOf, DecodePlace,
      EncodeAddr, PlaceFor, TupleN, Optimize, ExtensionOf, ReadDisp, ModDisp, Override, ModeOf, IsVsib, OneMap, Width, UsesRex2;
    NoRex2(r, v, m, ty);
    var o, p, a, tail := MemoryBytes(r, v, m, ty, code, imm, at, auto, labels);
    var e := Optimize(m.e);
    VexMemory(r, v, m, ty, code, a + tail);
    VexExtension(r, v, m, ty, code, |p.0|);
    OptimizeEncodable(m.e);
    var f := VexPrefix(r, AsOperand(e.base), v, ty, code, AsOperand(e.index).Ext(), |p.0|);
    hide Encodable, Operand.Ext, Operand.Ext2, AsOperand;
    var next := at + |o + p.0 + a + tail|;
    var w := At(PlaceFor(m.e, r.idx, next, labels), IsVsib(m.e));
    CarriedVex(r, v, m, ty, code, imm, |p.0|, w, Idx(v), w);
    var d := Carried(r, v, InMemory(m), ty, code, imm, w).value;
    forall w' ensures InsnOf(f, |o| == 1, r.idx % 8, Idx(v), At(w', ty.vsib), tail) == d.(v := Idx(v), rm := At(w', ty.vsib)) {
      CarriedVex(r, v, m, ty, code, imm, |p.0|, w, Idx(v), At(w', ty.vsib));
    }
    assert at + |o + p.0| + |a| + |tail| == next;
    VexWritten(m.e, r.idx, ty, o, p.0, f, a, tail, at + |o + p.0|, auto, labels, d, Idx(v));
  }

  lemma VexMemoryForm(r: Operand, v: Option<Operand>, m: Memory, ty: Type, code: u8, imm: Option<u8>, at: int, auto: bool, labels: Labels)
    requires Fits(r, v, InMemory(m)) && OneMap(ty) && ty.vsib == IsVsib(m.e) && !NeedsEvex(r, v, InMemory(m), ty)
    requires OpVex(r, v, InMemory(m), ty, code, imm, at, auto, labels).Some?
    ensures var bs := OpVex(r, v, InMemory(m), ty, code, imm, at, auto, labels).value;
      DecodeInsn(bs, false, ty, if imm.Some? then 1 else 0)
      == Carried(r, v, InMemory(m), ty, code, imm, At(PlaceFor(m.e, r.idx, at + |bs|, labels), IsVsib(m.e)))
      <==> Readable(r, v, m, ty)
  {
    hide OpVex, DecodeInsn, Carried, NeedsEvex, Fits, PlaceFor, ModeOf, IsVsib, OneMap, TupleFits;
    if ModeOf(m.e) == Disp64 {
      var bs := OpVex(r, v, InMemory(m), ty, code, imm, at, auto, labels).value;
      VexNothing(r, v, m, ty, code, imm, at, auto, labels, At(PlaceFor(m.e, r.idx, at + |bs|, labels), IsVsib(m.e)));
    } else {
      VexSomething(r, v, m, ty, code, imm, at, auto, labels);
    }
  }

  lemma VexWritten(e: RegExp, reg: int, ty: Type, o: seq<u8>, p: seq<u8>, f: Prefix, a: seq<u8>, tail: seq<u8>, at: int, auto: bool, labels: Labels, d: Insn, n: int)
    requires Encodable(e) && Placeable(e) && e.index.bit != 8192 && ModeOf(e) != Disp64 && ty.vsib == IsVsib(e)
    requires EncodeAddr(e, reg, 0, IsVsib(e), at, |tail|, auto, labels) == Some(a)
    requires (o == [] || o == [0x67]) && |p| > 0 && p[0] != 0x67 && f.size == |p| && !f.evex
    requires DecodePrefix(p + (a + tail)) == Some(f) && d.v == n == f.vvvv && f.V4 == 0 && f.X4 == 0
    requires Extension(f.B, f.B4, f.X3, 0) == ExtensionOf(Optimize(e)).(x4 := 0)
    requires !ty.vsib || e.index.idx < 16 ==> ExtensionOf(Optimize(e)).x4 == 0
    requires d.rm == At(PlaceFor(e, reg, at + |a| + |tail|, labels), IsVsib(e))
    requires forall w {:trigger At(w, ty.vsib)} :: InsnOf(f, |o| == 1, reg % 8, n, At(w, ty.vsib), tail) == d.(v := n, rm := At(w, ty.vsib))
    ensures DecodeInsn(o + p + a + tail, false, ty, |tail|) == Some(d) <==> (IsVsib(e) ==> e.index.idx < 16)
  {
    var lost := ty.vsib && e.index.idx >= 16;
    if lost { LowIndexIs(e, reg, at, |tail|, auto, labels, at + |a| + |tail|); }
    hide DecodePrefix, DecodeInsn, InsnOf, DecodePlace, EncodeAddr, PlaceFor, TupleN, Optimize, ExtensionOf, ModDisp, ModeOf,
      IsVsib, Encodable;
    var x := if lost then LowIndex(e) else e;
    assert x.index.bit == e.index.bit;
    var place := PlaceRead(x, reg, 0, at, |tail|, auto, labels, tail, a, 1);
    DecodesTo(o, p, f, a, tail, ty, place, d, reg % 8);
  }

  lemma NoRex2(r: Operand, v: Option<Operand>, m: Memory, ty: Type)
    requires Fits(r, v, InMemory(m)) && !NeedsEvex(r, v, InMemory(m), ty)
    ensures !UsesRex2(m.e)
  {}

  /** opVex on memory: the bytes of the whole instruction decode to what evex() or vex() put together
      if and only if these fields can be read back. */
  lemma MemoryFormReads(r: Operand, v: Option<Operand>, m: Memory, ty: Type, code: u8, imm: Option<u8>, at: int, auto: bool, labels: Labels)
    requires Fits(r, v, InMemory(m)) && OneMap(ty) && ty.vsib == IsVsib(m.e)
    requires OpVex(r, v, InMemory(m), ty, code, imm, at, auto, labels).Some?
    ensures var bs := OpVex(r, v, InMemory(m), ty, code, imm, at, auto, labels).value;
      DecodeInsn(bs, false, ty, if imm.Some? then 1 else 0)
      == Carried(r, v, InMemory(m), ty, code, imm, At(PlaceFor(m.e, r.idx, at + |bs|, labels), IsVsib(m.e)))
      <==> Readable(r, v, m, ty)
  {
    hide *;
    if NeedsEvex(r, v, InMemory(m), ty) { EvexMemoryForm(r, v, m, ty, code, imm, at, auto, labels); }
    else { VexMemoryForm(r, v, m, ty, code, imm, at, auto, labels); }
  }

  /** The type of vgatherdpd, VEX form. */
  const GATHER := Type(true, false, false, false, true, false, false, false, true, false, false, false, false, false, 0, false,
                       false, false, false, true, false, false, false, false, false, false, false)

  function Xmm(i: int): Operand { Operand(XMM, i, 128, false, 0, 0) }

  /** vgatherdpd xmm1, [rax + xmm17], xmm3 is accepted, and is the same bytes as with xmm1 for xmm17 as index. */
  lemma GatherIndexIsLost()
    ensures var hi := Memory(RegExp(Reg(0, 64), Reg(17, 128), 1, 0, None, false, false), false, false, 0);
      var lo := Memory(RegExp(Reg(0, 64), Reg(1, 128), 1, 0, None, false, false), false, false, 0);
      && Fits(Xmm(2), Some(Xmm(3)), InMemory(hi)) && Fits(Xmm(2), Some(Xmm(3)), InMemory(lo))
      && OpVex(Xmm(2), Some(Xmm(3)), InMemory(hi), GATHER, 0x92, None, 0, false, map[]).Some?
      && OpVex(Xmm(2), Some(Xmm(3)), InMemory(hi), GATHER, 0x92, None, 0, false, map[])
      == OpVex(Xmm(2), Some(Xmm(3)), InMemory(lo), GATHER, 0x92, None, 0, false, map[])
  {
    var hi := RegExp(Reg(0, 64), Reg(17, 128), 1, 0, None, false, false);
    var lo := RegExp(Reg(0, 64), Reg(1, 128), 1, 0, None, false, false);
    assert Optimize(hi) == hi && Optimize(lo) == lo;
    GatherAddress(hi, lo);
    assert AsOperand(Reg(17, 128)).Ext() == AsOperand(Reg(1, 128)).Ext() == false;
    hide EncodeSIB, Optimize, GetMap, GetPP, MapAsked, PrefixAsked, VexLow, VexMid, ModDisp, Verified;
  }

  lemma GatherAddress(hi: RegExp, lo: RegExp)
    requires hi == RegExp(Reg(0, 64), Reg(17, 128), 1, 0, None, false, false)
    requires lo == RegExp(Reg(0, 64), Reg(1, 128), 1, 0, None, false, false)
    ensures EncodeSIB(hi, 2, 0).Some? && EncodeSIB(hi, 2, 0) == EncodeSIB(lo, 2, 0)
  {
    assert ModDisp(hi.base, hi.disp % W32, 0) == ModDisp(lo.base, lo.disp % W32, 0) == (0, 0);
    assert Head(hi, 2, 0) == Head(lo, 2, 0) == [ModRM(0, 2, ESP), ModRM(0, 1, 0)];
    assert Tail(hi, 0, 0) == Tail(lo, 0, 0) == [];
    hide Head, Tail, ModDisp;
  }

  /** vmovaps xmm2, [0x80000000] is accepted as three bytes with no operand. */
  lemma AbsoluteOperandIsLost()
    ensures var m := Memory(RegExp(NONE, NONE, 0, 0x8000_0000, None, false, false), false, false, 0);
      var ty := GATHER.(p66 := false, m0F := true, m0F38 := false, w1 := false, vsib := false);
      && Fits(Xmm(2), None, InMemory(m))
      && OpVex(Xmm(2), None, InMemory(m), ty, 0x28, None, 0, false, map[]) == Some([0xC5, 0xF8, 0x28])
  {
    var e := RegExp(NONE, NONE, 0, 0x8000_0000, None, false, false);
    var m := Memory(e, false, false, 0);
    var ty := GATHER.(p66 := false, m0F := true, m0F38 := false, w1 := false, vsib := false);
    assert Optimize(e) == e && ModeOf(e) == Disp64;
    assert Vex(Xmm(2), AsOperand(NONE), None, ty, 0x28, false) == Some([0xC5, 0xF8, 0x28]);
    assert MemoryPrefix(Xmm(2), None, m, ty, 0x28) == Some(([0xC5, 0xF8, 0x28], 0));
    assert Override(e) == [] && [] + [0xC5, 0xF8, 0x28] + [] + [] == [0xC5, 0xF8, 0x28];
  }

  lemma EvexHeadIs(reg: Operand, base: Operand, v: Option<Operand>, ty: Type, code: u8, x: Option<Operand>, c: Control, mask: int, hi16: bool)
    requires 0 <= c.ll < 4 && 0 <= mask < 8
    ensures var X3 := (x.Some? && x.value.Ext()) || (base.IsSimd() && base.Ext2());
      var X4 := x.Some? && x.value.kind == GPR && x.value.Ext2();
      EvexHead(reg, base, v, ty, code, x, c, mask, hi16)
      == [0x62, P0(reg.Ext(), X3, base.Ext(), reg.Ext2(), base.kind == GPR && base.Ext2(), GetMap(ty)),
          P1(ty.ew1, Idx(v), X4, GetPP(ty)),
          P2(ZeroOf(reg, base, v) && mask != 0, c.ll, c.b, (v.Some? && v.value.Ext2()) || hi16, mask), code]
  {}
}
