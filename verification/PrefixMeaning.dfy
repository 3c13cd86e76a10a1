/** xbyak/xbyak.h: what opVex is asked for, said of the operands alone, and when its bytes say the same. */
module PrefixMeanings {
  import Arith
  import opened AddressEncoder
  import opened Bytes
  import opened PrefixEncoder
  import opened RegExps

  /** The one number that is asked for, 0 if none is; None if two different ones are. */
  function Agreed(a: int, b: int, c: int): Option<int> {
    if (a != 0 && b != 0 && a != b) || (a != 0 && c != 0 && a != c) || (b != 0 && c != 0 && b != c) then None
    else Some(if a != 0 then a else if b != 0 then b else c)
  }

  function MaskAsked(r: Operand, v: Option<Operand>, op2: RegMem): Option<int> {
    Agreed(r.mask, if v.Some? then v.value.mask else 0, if op2.Register? then op2.r.mask else op2.m.mask)
  }

  /** One zeroing modifier is enough, wherever it stands. */
  predicate ZeroAsked(r: Operand, v: Option<Operand>, op2: RegMem) {
    r.zero || (v.Some? && v.value.zero) || (if op2.Register? then op2.r.zero else op2.m.zero)
  }

  function RoundingAsked(r: Operand, v: Option<Operand>, op2: RegMem): Option<int> {
    Agreed(r.rounding, if v.Some? then v.value.rounding else 0, if op2.Register? then op2.r.rounding else 0)
  }

  /** Some operand, a vector index included, has at least n bits. */
  predicate AnyWidth(r: Operand, v: Option<Operand>, op2: RegMem, n: int) {
    || r.bit >= n || (v.Some? && v.value.bit >= n)
    || (match op2 case Register(b) => b.bit >= n case InMemory(m) => 128 <= m.e.index.bit <= 512 && m.e.index.bit >= n)
  }

  /** A register or modifier that only EVEX can hold. */
  predicate Large(o: Operand) {
    o.idx >= 16 || o.bit == 512 || o.mask != 0 || o.rounding != 0
  }

  predicate BeyondVex(r: Operand, v: Option<Operand>, op2: RegMem, ty: Type) {
    || ty.mustEvex || Large(r) || (v.Some? && Large(v.value))
    || (match op2
        case Register(b) => Large(b)
        case InMemory(m) => ty.memEvex || m.broadcast || m.mask != 0 || m.e.base.idx >= 16 || m.e.index.idx >= 16)
  }

  /** The instruction the operands ask for: every register number, the one opmask, zeroing if any operand asks for it
      and there is a mask, broadcast, rounding or the length of the widest operand, and the attributes and immediate
      that come with the mnemonic. None if two masks or roundings differ, or if rounding stands beside memory, where
      the bit that would announce it means broadcast. */
  function Meant(r: Operand, v: Option<Operand>, op2: RegMem, ty: Type, code: u8, imm: Option<u8>, rm: Where): Option<Insn> {
    var tail := if imm.Some? then [imm.value] else [];
    var addr32 := op2.InMemory? && (op2.m.e.base.bit == 32 || op2.m.e.index.bit == 32);
    var second := if v.Some? then v.value.idx else 0;
    if !BeyondVex(r, v, op2, ty) then
      Some(Insn(false, addr32, MapAsked(ty), PrefixAsked(ty), Bit(ty.w1), Bit(ty.l1 || r.bit == 256), 0, 0, 0, r.idx, second, rm, code, tail))
    else
      var mask :- MaskAsked(r, v, op2);
      var rounding :- RoundingAsked(r, v, op2);
      if op2.InMemory? && rounding != 0 then None
      else
        var length := if AnyWidth(r, v, op2, 512) then 2 else if AnyWidth(r, v, op2, 256) then 1 else 0;
        var ll := if rounding == 0 then length else if rounding == SAE then 0 else rounding - 1;
        Some(Insn(true, addr32, MapAsked(ty), PrefixAsked(ty), Bit(ty.ew1), ll, Bit(ZeroAsked(r, v, op2) && mask != 0),
                  Bit(rounding != 0 || (op2.InMemory? && op2.m.broadcast)), mask, r.idx, second, rm, code, tail))
  }

  const SAE := 5

  predicate Unrounded(r: Operand, v: Option<Operand>) {
    r.rounding == 0 && (v.Some? ==> v.value.rounding == 0)
  }

  /** Zeroing that only the memory operand asks for is asked for in vain. */
  predicate ZeroKept(r: Operand, v: Option<Operand>, m: Memory) {
    m.zero ==> r.zero || (v.Some? && v.value.zero) || (m.mask == 0 && r.mask == 0 && (v.Some? ==> v.value.mask == 0))
  }

  /** For other widths than 128, 256 and 512 bits evex() does not scale by the tuple type: for T_DUP when there is no
      vector at all, otherwise beside a tile register when the factor depends on the length. */
  predicate TupleSuits(r: Operand, v: Option<Operand>, m: Memory, ty: Type) {
    || m.broadcast
    || if ty.nx == NX_DUP then AnyWidth(r, v, InMemory(m), 128)
       else AnyWidth(r, v, InMemory(m), 8192) ==> ty.nVL == (ty.nx == 0)
  }

  /** The factor it uses then. */
  function OddFactor(ty: Type): nat {
    if ty.nx == NX_DUP then 64 else if ty.nx == 0 then 16 else Power(ty.nx - 1)
  }

  /** d is a multiple of n that fits eight bits when it is divided by n. */
  predicate Compresses(d: int, n: nat)
    requires n > 0
  {
    d % n == 0 && -0x80 * n <= d <= 0x7F * n
  }

  lemma OddFactorPositive(ty: Type)
    requires ty.nx < 8
    ensures OddFactor(ty) > 0 && W32 % OddFactor(ty) == 0
  {
    assert Power(0) == 1 && Power(1) == 2 && Power(2) == 4 && Power(3) == 8;
    assert Power(4) == 16 && Power(5) == 32;
  }

  /** What a caller can check beforehand. The address is not a 64-bit absolute one and has a vector index exactly if the
      instruction takes one; no rounding, no second mask, no zeroing that memory alone asks for; a vector index
      of a VEX instruction is below 16, and beside one in an EVEX instruction there is no second source above 15; and
      the displacement is scaled by the tuple type or not at all. */
  predicate Lossless(r: Operand, v: Option<Operand>, m: Memory, ty: Type)
    requires Fits(r, v, InMemory(m)) && OneMap(ty)
  {
    && ModeOf(m.e) != Disp64 && ty.vsib == IsVsib(m.e)
    && Unrounded(r, v) && MaskAsked(r, v, InMemory(m)).Some? && ZeroKept(r, v, m)
    && (if NeedsEvex(r, v, InMemory(m), ty) then
          && (IsVsib(m.e) ==> Idx(v) < 16)
          && (m.e.rip || TupleSuits(r, v, m, ty) || ScalesNothing(m.e, ty))
        else IsVsib(m.e) ==> m.e.index.idx < 16)
  }

  /** No displacement that the other factor would compress: none at all, no base, or one out of reach. */
  predicate ScalesNothing(e: RegExp, ty: Type)
    requires ty.nx < 8
  {
    OddFactorPositive(ty);
    SignedDisp(e.disp) == 0 || Optimize(e).base.bit == 0 || !Compresses(SignedDisp(e.disp), OddFactor(ty))
  }

  lemma AgreedIs(a: nat, b: nat, c: nat)
    ensures Common(a, b, c) == Agreed(b, c, a) == Agreed(a, c, b)
  {}

  /** EVEX is chosen for everything that needs it, but for a vector index above 15. */
  lemma BeyondIs(r: Operand, v: Option<Operand>, op2: RegMem, ty: Type)
    requires Fits(r, v, op2)
    ensures BeyondVex(r, v, op2, ty) <==> NeedsEvex(r, v, op2, ty) || (op2.InMemory? && IsVsib(op2.m.e) && op2.m.e.index.idx >= 16)
  {
    LargeIs(r);
    if v.Some? { LargeIs(v.value); }
    match op2
    case Register(b) => LargeIs(b);
    case InMemory(m) =>
  }

  lemma LargeIs(o: Operand)
    requires o.Valid()
    ensures Large(o) <==> o.HasEvex()
  {
    assert o.idx >= 16 <==> o.idx / 16 % 2 == 1;
  }

  /** The length evex() works with, by the widest operand. */
  lemma LengthIs(r: Operand, base: Operand, v: Option<Operand>, VL: int, any512: bool, any256: bool)
    requires r.Valid() && base.Valid() && (v.Some? ==> v.value.Valid()) && VL in {0, 128, 256, 512}
    requires any512 <==> r.bit >= 512 || (v.Some? && v.value.bit >= 512) || base.bit >= 512 || VL >= 512
    requires any256 <==> r.bit >= 256 || (v.Some? && v.value.bit >= 256) || base.bit >= 256 || VL >= 256
    ensures var n := Length(r, base, v, VL); (n >= 512 <==> any512) && (any512 || (n == 256 <==> any256))
    ensures Length(r, base, v, VL) in {128, 256, 512, 8192} || 0 <= Length(r, base, v, VL) <= 64
  {}

  /** Mask, rounding and length on registers. */
  lemma RegisterControl(r: Operand, v: Option<Operand>, base: Operand, ty: Type)
    requires Fits(r, v, Register(base))
    ensures MaskOf(r, base, v, 0) == MaskAsked(r, v, Register(base)) && ZeroOf(r, base, v) == ZeroAsked(r, v, Register(base))
    ensures var c, op2 := ControlOf(r, base, v, ty, false, 0), Register(base); var rounding := RoundingAsked(r, v, op2);
      c.Some? ==>
        && rounding.Some? && c.value.b == (rounding.value != 0)
        && c.value.ll == if rounding.value != 0 then if rounding.value == SAE then 0 else rounding.value - 1
                         else if AnyWidth(r, v, op2, 512) then 2 else if AnyWidth(r, v, op2, 256) then 1 else 0
  {
    RegisterMask(r, v, base);
    RegisterRounding(r, v, base, ty);
    hide *;
  }

  lemma RegisterMask(r: Operand, v: Option<Operand>, base: Operand)
    requires Fits(r, v, Register(base))
    ensures MaskOf(r, base, v, 0) == MaskAsked(r, v, Register(base)) && ZeroOf(r, base, v) == ZeroAsked(r, v, Register(base))
  {
    AgreedIs(base.mask, r.mask, if v.Some? then v.value.mask else 0);
    hide Common, Agreed;
  }

  lemma RegisterRounding(r: Operand, v: Option<Operand>, base: Operand, ty: Type)
    requires Fits(r, v, Register(base))
    ensures var c, op2 := ControlOf(r, base, v, ty, false, 0), Register(base); var rounding := RoundingAsked(r, v, op2);
      c.Some? ==>
        && rounding.Some? && c.value.b == (rounding.value != 0)
        && c.value.ll == if rounding.value != 0 then if rounding.value == SAE then 0 else rounding.value - 1
                         else if AnyWidth(r, v, op2, 512) then 2 else if AnyWidth(r, v, op2, 256) then 1 else 0
  {
    var op2 := Register(base);
    AgreedIs(r.rounding, base.rounding, if v.Some? then v.value.rounding else 0);
    LengthIs(r, base, v, 0, AnyWidth(r, v, op2, 512), AnyWidth(r, v, op2, 256));
    hide Length, SaeFits, ErFits, Disp8N, Common, Agreed, MaskOf, ZeroOf, MaskAsked, ZeroAsked, AnyWidth;
  }

  /** On registers the fields are those asked for. */
  lemma RegisterFields(r: Operand, v: Option<Operand>, base: Operand, ty: Type, code: u8, imm: Option<u8>)
    requires Fits(r, v, Register(base)) && Carried(r, v, Register(base), ty, code, imm, Is(base.idx)).Some?
    ensures Meant(r, v, Register(base), ty, code, imm, Is(base.idx)) == Carried(r, v, Register(base), ty, code, imm, Is(base.idx))
  {
    BeyondIs(r, v, Register(base), ty);
    RegisterControl(r, v, base, ty);
    assert r.kind == YMM <==> r.bit == 256;
    hide NeedsEvex, BeyondVex, MapAsked, PrefixAsked, ControlOf, MaskOf, ZeroOf, MaskAsked, ZeroAsked, RoundingAsked, AnyWidth, Fits;
  }

  /** opVex on registers: the bytes of the whole instruction decode to what the operands ask for. */
  lemma RegisterFormDecodes(r: Operand, v: Option<Operand>, base: Operand, ty: Type, code: u8, imm: Option<u8>, at: int,
                            auto: bool, labels: Labels)
    requires Fits(r, v, Register(base)) && OneMap(ty)
    requires OpVex(r, v, Register(base), ty, code, imm, at, auto, labels).Some?
    ensures var bs := OpVex(r, v, Register(base), ty, code, imm, at, auto, labels).value;
      var meant := Meant(r, v, Register(base), ty, code, imm, Is(base.idx));
      meant.Some? && DecodeInsn(bs, base.IsSimd(), ty, if imm.Some? then 1 else 0) == meant
  {
    hide *;
    RegisterFormReads(r, v, base, ty, code, imm, at, auto, labels);
    RegisterFields(r, v, base, ty, code, imm);
  }

  /** Mask, zeroing and length beside memory, where nothing asked for is dropped. */
  lemma MemoryControl(r: Operand, v: Option<Operand>, m: Memory, ty: Type)
    requires Fits(r, v, InMemory(m)) && Unrounded(r, v) && MaskAsked(r, v, InMemory(m)).Some? && ZeroKept(r, v, m)
    ensures var base, op2 := AsOperand(Optimize(m.e).base), InMemory(m);
      var c := ControlOf(r, base, v, ty, m.broadcast, MemoryVL(m));
      && MaskOf(r, base, v, m.mask) == MaskAsked(r, v, op2)
      && (ZeroOf(r, base, v) && MaskAsked(r, v, op2).value != 0 <==> ZeroAsked(r, v, op2) && MaskAsked(r, v, op2).value != 0)
      && RoundingAsked(r, v, op2) == Some(0) && c.Some? && c.value.b == m.broadcast
      && c.value.ll == if AnyWidth(r, v, op2, 512) then 2 else if AnyWidth(r, v, op2, 256) then 1 else 0
  {
    var base, op2 := AsOperand(Optimize(m.e).base), InMemory(m);
    BaseIsPlain(m.e);
    ReachesIs(r, v, m, 512);
    ReachesIs(r, v, m, 256);
    LengthRange(r, v, m);
    hide Length, SaeFits, ErFits, Disp8N, Optimize, AsOperand, Fits, AnyWidth, MemoryVL, IsVsib, Encodable;
  }

  lemma BaseIsPlain(e: RegExp)
    requires Encodable(e)
    ensures var b := AsOperand(Optimize(e).base); b.Valid() && b.kind == GPR && b.mask == 0 && !b.zero && b.rounding == 0 && b.bit <= 64
  {}

  /** Where nothing is dropped the fields are those asked for. */
  lemma MemoryFields(r: Operand, v: Option<Operand>, m: Memory, ty: Type, code: u8, imm: Option<u8>, w: Where)
    requires Fits(r, v, InMemory(m)) && Unrounded(r, v) && MaskAsked(r, v, InMemory(m)).Some? && ZeroKept(r, v, m)
    requires BeyondVex(r, v, InMemory(m), ty) == NeedsEvex(r, v, InMemory(m), ty)
    ensures Meant(r, v, InMemory(m), ty, code, imm, w).Some?
    ensures Meant(r, v, InMemory(m), ty, code, imm, w) == Carried(r, v, InMemory(m), ty, code, imm, w)
  {
    MemoryControl(r, v, m, ty);
    assert r.kind == YMM <==> r.bit == 256;
    hide NeedsEvex, BeyondVex, MapAsked, PrefixAsked, ControlOf, MaskOf, ZeroOf, MaskAsked, ZeroAsked, RoundingAsked, AnyWidth, Fits,
      Optimize, AsOperand, ZeroKept;
  }

  /** setSIB compresses exactly the displacements that are in reach. */
  lemma CompressesIs(e: RegExp, n: nat)
    requires Encodable(e) && DispFits(e.disp) && n > 0 && W32 % n == 0
    ensures ModDisp(e.base, e.disp % W32, n).0 == 1
        <==> e.base.bit != 0 && (SignedDisp(e.disp) != 0 || e.base.idx % 8 == EBP) && Compresses(SignedDisp(e.disp), n)
  {
    var x, d := e.disp % W32, SignedDisp(e.disp);
    DispFitsMeans(e.disp);
    MultipleIs(d, n);
    hide DispFits, SignedDisp, Encodable, Quotient, Compresses;
    if x % n == 0 { CompressedQuotient(d, n); }
    else { hide InDisp8; assert !Compresses(d, n) by { NotCompressed(d, n); } }
  }

  lemma NotCompressed(d: int, n: nat)
    requires n > 0 && d % n != 0
    ensures !Compresses(d, n)
  {}

  lemma CompressedQuotient(d: int, n: nat)
    requires -0x8000_0000 <= d < 0x8000_0000 && n > 0 && d % n == 0
    ensures InDisp8(Quotient(d, n) % W32) <==> Compresses(d, n)
  {
    var q := Quotient(d, n);
    WholeQuotient(d, n);
    hide Quotient;
    if q > 0x7F { Arith.MulMono(0x80, q, n); }
    else if q < -0x80 { Arith.MulMono(q, -0x81, n); }
    else { Arith.MulMono(q, 0x7F, n); Arith.MulMono(-0x80, q, n); }
  }

  lemma WholeQuotient(d: int, n: nat)
    requires -0x8000_0000 <= d < 0x8000_0000 && n > 0 && d % n == 0
    ensures Quotient(d, n) * n == d && -0x8000_0000 <= Quotient(d, n) < 0x8000_0000
  {
    var k := d / n;
    assert d == k * n;
    if d >= 0 { Smaller(k, n, d); }
    else {
      Exact(0 - k, n, 0 - d);
      Smaller(0 - k, n, 0 - d);
    }
  }

  lemma MultipleIs(d: int, n: nat)
    requires n > 0 && W32 % n == 0
    ensures d < 0 && -W32 <= d ==> ((d + W32) % n == 0 <==> d % n == 0)
  {
    var k := W32 / n;
    assert W32 == k * n;
    var q, r := d / n, d % n;
    assert d + W32 == (q + k) * n + r;
    Arith.DivUnique(d + W32, n, q + k);
  }

  /** The length as far as disp8N depends on it. */
  lemma ReachesIs(r: Operand, v: Option<Operand>, m: Memory, t: int)
    requires Fits(r, v, InMemory(m)) && t > 64
    ensures Length(r, AsOperand(Optimize(m.e).base), v, MemoryVL(m)) >= t <==> AnyWidth(r, v, InMemory(m), t)
  {
    BaseIsPlain(m.e);
    hide Optimize, AsOperand;
  }

  /** disp8N is the factor of the tuple type exactly when the widths suit it; otherwise it is the other factor. */
  lemma FactorIs(r: Operand, v: Option<Operand>, m: Memory, ty: Type)
    requires Fits(r, v, InMemory(m)) && Unrounded(r, v) && ty.nx < 8
    ensures var c := ControlOf(r, AsOperand(Optimize(m.e).base), v, ty, m.broadcast, MemoryVL(m));
      && c.Some?
      && (TupleN(ty, Bit(c.value.b), c.value.ll) == c.value.disp8N <==> TupleSuits(r, v, m, ty))
      && (!TupleSuits(r, v, m, ty) ==> c.value.disp8N == OddFactor(ty))
  {
    hide Optimize, AsOperand, AnyWidth, SaeFits, ErFits, TupleN, Disp8N, OddFactor, Length, MemoryVL, Encodable;
    var base := AsOperand(Optimize(m.e).base);
    BaseIsPlain(m.e);
    var n := Length(r, base, v, MemoryVL(m));
    ReachesIs(r, v, m, 128);
    ReachesIs(r, v, m, 8192);
    LengthRange(r, v, m);
    FactorOf(ty, m.broadcast, n);
  }

  lemma LengthRange(r: Operand, v: Option<Operand>, m: Memory)
    requires Fits(r, v, InMemory(m))
    ensures var n := Length(r, AsOperand(Optimize(m.e).base), v, MemoryVL(m)); n in {128, 256, 512, 8192} || 0 <= n <= 64
  {
    BaseIsPlain(m.e);
    hide Optimize, AsOperand;
    var base := AsOperand(Optimize(m.e).base);
    var n := Length(r, base, v, MemoryVL(m));
    LengthIs(r, base, v, MemoryVL(m), n >= 512, n >= 256);
  }

  lemma FactorOf(ty: Type, b: bool, n: int)
    requires ty.nx < 8 && (n in {128, 256, 512, 8192} || 0 <= n <= 64)
    ensures var suits := b || if ty.nx == NX_DUP then n >= 128 else n >= 8192 ==> ty.nVL == (ty.nx == 0);
      && (TupleN(ty, Bit(b), if n >= 512 then 2 else if n == 256 then 1 else 0) == Disp8N(ty, b, n) <==> suits)
      && (!suits ==> Disp8N(ty, b, n) == OddFactor(ty))
  {
    assert Power(0) == 1 && Power(1) == 2 && Power(2) == 4 && Power(3) == 8;
    assert Power(4) == 16 && Power(5) == 32;
    if ty.nx != 0 { assert Power(ty.nx - 1) > 0; }
  }

  /** The displacement is read back exactly under the condition on the operands. */
  lemma TupleIs(r: Operand, v: Option<Operand>, m: Memory, ty: Type)
    requires Fits(r, v, InMemory(m)) && Unrounded(r, v) && ty.nx < 8 && DispFits(m.e.disp)
    ensures var c := ControlOf(r, AsOperand(Optimize(m.e).base), v, ty, m.broadcast, MemoryVL(m));
      c.Some? && (TupleFits(ty, c.value, m.e) <==> TupleSuits(r, v, m, ty) || ScalesNothing(m.e, ty))
  {
    FactorIs(r, v, m, ty);
    OddFactorPositive(ty);
    OptimizeEncodable(m.e);
    CompressesIs(Optimize(m.e), OddFactor(ty));
    hide ControlOf, Optimize, AsOperand, TupleN, TupleSuits, ModDisp, Compresses, OddFactor;
  }

  /** Without loss in the fields, the address is read back under the conditions on the operands. */
  lemma ReadableIs(r: Operand, v: Option<Operand>, m: Memory, ty: Type)
    requires Fits(r, v, InMemory(m)) && OneMap(ty) && (ModeOf(m.e) == AsModRM ==> DispFits(m.e.disp))
    requires Unrounded(r, v) && MaskAsked(r, v, InMemory(m)).Some? && ZeroKept(r, v, m) && ty.vsib == IsVsib(m.e)
    ensures Readable(r, v, m, ty) <==> Lossless(r, v, m, ty)
  {
    if ModeOf(m.e) == AsModRM { TupleIs(r, v, m, ty); }
    hide TupleFits, TupleSuits, ScalesNothing, ControlOf, NeedsEvex, Optimize, AsOperand, MaskAsked;
  }

  lemma DecodedFields(o: seq<u8>, p: seq<u8>, f: Prefix, rest: seq<u8>, ty: Type, immSize: nat)
    requires (o == [] || o == [0x67]) && |p| > 0 && p[0] != 0x67 && f.size == |p| && DecodePrefix(p + rest) == Some(f)
    ensures var d := DecodeInsn(o + p + rest, false, ty, immSize);
      d.Some? ==> d.value.evex == f.evex && d.value.z == f.z && (d.value.rm.At? ==> d.value.rm.vsib == ty.vsib)
  {
    hide DecodePrefix, DecodePlace, TupleN;
    var bs := o + p + rest;
    assert bs[|o|..] == p + rest;
    assert o == [] ==> bs[0] == p[0];
  }

  /** What any decoding of the bytes must show: the format, zeroing and the class of the index. */
  lemma MemoryShows(r: Operand, v: Option<Operand>, m: Memory, ty: Type, code: u8, imm: Option<u8>, at: int, auto: bool, labels: Labels)
    requires Fits(r, v, InMemory(m)) && OneMap(ty) && OpVex(r, v, InMemory(m), ty, code, imm, at, auto, labels).Some?
    ensures var d := DecodeInsn(OpVex(r, v, InMemory(m), ty, code, imm, at, auto, labels).value, false, ty, if imm.Some? then 1 else 0);
      d.Some? ==>
        && d.value.evex == NeedsEvex(r, v, InMemory(m), ty) && (d.value.rm.At? ==> d.value.rm.vsib == ty.vsib)
        && (d.value.z == 1 ==> r.zero || (v.Some? && v.value.zero))
    ensures ModeOf(m.e) == AsModRM ==> DispFits(m.e.disp)
  {
    hide OpVex, DecodePrefix, DecodeInsn, EvexPrefix, VexPrefix, MemoryPrefix, NeedsEvex, ControlOf, MaskOf, EncodeAddr, Optimize, Encodable,
      Override, ModeOf, OneMap, Width, DispFits;
    var o, p, a, tail := MemoryBytes(r, v, m, ty, code, imm, at, auto, labels);
    if ModeOf(m.e) == AsModRM { AddrFits(m.e, r.idx, p.1, ty.vsib, at + |o + p.0|, |tail|, auto, labels); }
    assert o + p.0 + a + tail == o + p.0 + (a + tail);
    var e := Optimize(m.e);
    var base, index := AsOperand(e.base), AsOperand(e.index);
    if NeedsEvex(r, v, InMemory(m), ty) {
      EvexMemory(r, v, m, ty, code, a + tail);
      var c := ControlOf(r, base, v, ty, m.broadcast, MemoryVL(m)).value;
      var mask := MaskOf(r, base, v, m.mask).value;
      EvexPrefixIs(r, base, v, ty, code, Some(index), c, mask, index.IsSimd() && index.Ext2());
      BaseIsPlain(m.e);
      hide AsOperand;
      DecodedFields(o, p.0, EvexPrefix(r, base, v, ty, code, Some(index), c, mask, index.IsSimd() && index.Ext2()), a + tail, ty, |tail|);
    } else {
      VexMemory(r, v, m, ty, code, a + tail);
      VexPrefixIs(r, base, v, ty, code, index.Ext(), |p.0|);
      hide AsOperand;
      DecodedFields(o, p.0, VexPrefix(r, base, v, ty, code, index.Ext(), |p.0|), a + tail, ty, |tail|);
    }
  }

  lemma VexPrefixIs(r: Operand, base: Operand, v: Option<Operand>, ty: Type, code: u8, x: bool, size: nat)
    ensures var f := VexPrefix(r, base, v, ty, code, x, size); !f.evex && f.z == 0 && f.size == size
  {}

  /** Whatever is asked for in vain is missing in what is meant, or has no meaning at all. */
  lemma LossShows(r: Operand, v: Option<Operand>, m: Memory, ty: Type, code: u8, imm: Option<u8>, w: Where)
    requires Fits(r, v, InMemory(m))
    ensures var d := Meant(r, v, InMemory(m), ty, code, imm, w);
      d.Some? ==>
        && d.value.rm == w && d.value.evex == BeyondVex(r, v, InMemory(m), ty)
        && Unrounded(r, v) && MaskAsked(r, v, InMemory(m)).Some?
        && (!ZeroKept(r, v, m) ==> d.value.z == 1 && !r.zero && (v.Some? ==> !v.value.zero))
  {
    hide AnyWidth, MapAsked, PrefixAsked, Width, Fits;
  }

  /** Nothing that is asked for is dropped from the fields of the prefix. */
  predicate FieldsKept(r: Operand, v: Option<Operand>, m: Memory, ty: Type)
    requires Fits(r, v, InMemory(m))
  {
    && ty.vsib == IsVsib(m.e) && Unrounded(r, v) && MaskAsked(r, v, InMemory(m)).Some? && ZeroKept(r, v, m)
    && BeyondVex(r, v, InMemory(m), ty) == NeedsEvex(r, v, InMemory(m), ty)
  }

  lemma LosslessKeeps(r: Operand, v: Option<Operand>, m: Memory, ty: Type)
    requires Fits(r, v, InMemory(m)) && OneMap(ty) && Lossless(r, v, m, ty)
    ensures FieldsKept(r, v, m, ty)
  {
    BeyondIs(r, v, InMemory(m), ty);
    hide BeyondVex, NeedsEvex, MaskAsked, ZeroKept, TupleSuits, ScalesNothing;
  }

  ghost predicate DecodesAsMeant(r: Operand, v: Option<Operand>, m: Memory, ty: Type, code: u8, imm: Option<u8>, bs: seq<u8>, w: Where) {
    var meant := Meant(r, v, InMemory(m), ty, code, imm, w);
    meant.Some? && DecodeInsn(bs, false, ty, if imm.Some? then 1 else 0) == meant
  }

  lemma LossIsSeen(r: Operand, v: Option<Operand>, m: Memory, ty: Type, code: u8, imm: Option<u8>, at: int, auto: bool, labels: Labels,
                   bs: seq<u8>, w: Where)
    requires Fits(r, v, InMemory(m)) && OneMap(ty) && OpVex(r, v, InMemory(m), ty, code, imm, at, auto, labels) == Some(bs)
    requires w.At? && w.vsib == IsVsib(m.e) && DecodesAsMeant(r, v, m, ty, code, imm, bs, w)
    ensures FieldsKept(r, v, m, ty)
  {
    hide OpVex, DecodeInsn, Meant, BeyondVex, NeedsEvex, MaskAsked, Unrounded, ZeroKept, Fits, IsVsib, OneMap;
    MemoryShows(r, v, m, ty, code, imm, at, auto, labels);
    LossShows(r, v, m, ty, code, imm, w);
  }

  lemma KeptIsRead(r: Operand, v: Option<Operand>, m: Memory, ty: Type, code: u8, imm: Option<u8>, at: int, auto: bool, labels: Labels,
                   bs: seq<u8>, w: Where)
    requires Fits(r, v, InMemory(m)) && OneMap(ty) && OpVex(r, v, InMemory(m), ty, code, imm, at, auto, labels) == Some(bs)
    requires w == At(PlaceFor(m.e, r.idx, at + |bs|, labels), IsVsib(m.e)) && FieldsKept(r, v, m, ty)
    ensures DecodesAsMeant(r, v, m, ty, code, imm, bs, w) <==> Lossless(r, v, m, ty)
  {
    hide OpVex, DecodeInsn, Meant, Carried, PlaceFor, NeedsEvex, BeyondVex, MaskAsked, Unrounded, ZeroKept, Readable, ModeOf, IsVsib,
      Lossless, Fits;
    MemoryShows(r, v, m, ty, code, imm, at, auto, labels);
    ReadableIs(r, v, m, ty);
    MemoryFormReads(r, v, m, ty, code, imm, at, auto, labels);
    MemoryFields(r, v, m, ty, code, imm, w);
  }

  /** opVex on memory: the bytes of the whole instruction decode to what the operands ask for if and only if the
      operands are lossless. */
  lemma MemoryFormDecodes(r: Operand, v: Option<Operand>, m: Memory, ty: Type, code: u8, imm: Option<u8>, at: int, auto: bool, labels: Labels)
    requires Fits(r, v, InMemory(m)) && OneMap(ty)
    requires OpVex(r, v, InMemory(m), ty, code, imm, at, auto, labels).Some?
    ensures var bs := OpVex(r, v, InMemory(m), ty, code, imm, at, auto, labels).value;
      DecodesAsMeant(r, v, m, ty, code, imm, bs, At(PlaceFor(m.e, r.idx, at + |bs|, labels), IsVsib(m.e))) <==> Lossless(r, v, m, ty)
  {
    hide *;
    var bs := OpVex(r, v, InMemory(m), ty, code, imm, at, auto, labels).value;
    var w := At(PlaceFor(m.e, r.idx, at + |bs|, labels), IsVsib(m.e));
    if DecodesAsMeant(r, v, m, ty, code, imm, bs, w) { LossIsSeen(r, v, m, ty, code, imm, at, auto, labels, bs, w); }
    if Lossless(r, v, m, ty) { LosslessKeeps(r, v, m, ty); }
    if FieldsKept(r, v, m, ty) { KeptIsRead(r, v, m, ty, code, imm, at, auto, labels, bs, w); }
  }

  /** Vector length and rounding as the L'L field holds them; T_sae and T_rn_sae are the same two bits. */
  function LengthOrRounding(r: Operand, v: Option<Operand>, op2: RegMem, rounding: int): int {
    if rounding == SAE then 0 else if rounding != 0 then rounding - 1
    else if AnyWidth(r, v, op2, 512) then 2 else if AnyWidth(r, v, op2, 256) then 1 else 0
  }

  /** All that two sets of operands ask for is the same: register numbers, format, and then either the VEX length or
      mask, zeroing under a mask, broadcast, whether there is rounding, and length or rounding mode. */
  predicate SameRequest(r1: Operand, v1: Option<Operand>, a: RegMem, r2: Operand, v2: Option<Operand>, b: RegMem, ty: Type) {
    && r1.idx == r2.idx && Idx(v1) == Idx(v2) && BeyondVex(r1, v1, a, ty) == BeyondVex(r2, v2, b, ty)
    && if !BeyondVex(r1, v1, a, ty) then ty.l1 || (r1.bit == 256 <==> r2.bit == 256)
       else
         var x, y := RoundingAsked(r1, v1, a), RoundingAsked(r2, v2, b);
         && MaskAsked(r1, v1, a).Some? && MaskAsked(r1, v1, a) == MaskAsked(r2, v2, b)
         && (MaskAsked(r1, v1, a) != Some(0) ==> ZeroAsked(r1, v1, a) == ZeroAsked(r2, v2, b))
         && (a.InMemory? && b.InMemory? ==> a.m.broadcast == b.m.broadcast)
         && x.Some? && y.Some? && (x == Some(0) <==> y == Some(0))
         && LengthOrRounding(r1, v1, a, x.value) == LengthOrRounding(r2, v2, b, y.value)
  }

  lemma MeantDetermines(r1: Operand, v1: Option<Operand>, a: RegMem, r2: Operand, v2: Option<Operand>, b: RegMem, ty: Type, code: u8,
                        imm: Option<u8>, w1: Where, w2: Where)
    requires Meant(r1, v1, a, ty, code, imm, w1).Some? && a.InMemory? == b.InMemory?
    requires Meant(r1, v1, a, ty, code, imm, w1) == Meant(r2, v2, b, ty, code, imm, w2)
    ensures SameRequest(r1, v1, a, r2, v2, b, ty) && w1 == w2
    ensures a.InMemory? ==> (Width(a.m.e) == 32 <==> Width(b.m.e) == 32)
  {
    hide Meant, AnyWidth, BeyondVex, Width, MaskAsked, ZeroAsked, RoundingAsked, LengthOrRounding;
    MeantShows(r1, v1, a, ty, code, imm, w1);
    MeantShows(r2, v2, b, ty, code, imm, w2);
  }

  lemma MeantShows(r: Operand, v: Option<Operand>, op2: RegMem, ty: Type, code: u8, imm: Option<u8>, w: Where)
    requires Meant(r, v, op2, ty, code, imm, w).Some?
    ensures var d := Meant(r, v, op2, ty, code, imm, w).value;
      && d.reg == r.idx && d.v == Idx(v) && d.rm == w && d.evex == BeyondVex(r, v, op2, ty)
      && (op2.InMemory? ==> d.addr32 == (Width(op2.m.e) == 32))
      && if !d.evex then d.ll == Bit(ty.l1 || r.bit == 256)
         else
           var rounding := RoundingAsked(r, v, op2);
           && MaskAsked(r, v, op2) == Some(d.aaa) && d.z == Bit(ZeroAsked(r, v, op2) && d.aaa != 0) && rounding.Some?
           && d.ll == LengthOrRounding(r, v, op2, rounding.value)
           && if op2.InMemory? then rounding == Some(0) && d.b == Bit(op2.m.broadcast) else d.b == Bit(rounding.value != 0)
  {
    hide AnyWidth, BeyondVex, MapAsked, PrefixAsked, MaskAsked, ZeroAsked, RoundingAsked;
  }

  /** Two sets of register operands share an encoding only if they ask for the same. */
  lemma RegisterFormIsInjective(r1: Operand, v1: Option<Operand>, b1: Operand, r2: Operand, v2: Option<Operand>, b2: Operand,
                                ty: Type, code: u8, imm: Option<u8>, at: int, auto: bool, labels: Labels)
    requires Fits(r1, v1, Register(b1)) && Fits(r2, v2, Register(b2)) && OneMap(ty) && b1.IsSimd() == b2.IsSimd()
    requires OpVex(r1, v1, Register(b1), ty, code, imm, at, auto, labels).Some?
    requires OpVex(r1, v1, Register(b1), ty, code, imm, at, auto, labels) == OpVex(r2, v2, Register(b2), ty, code, imm, at, auto, labels)
    ensures b1.idx == b2.idx && SameRequest(r1, v1, Register(b1), r2, v2, Register(b2), ty)
  {
    hide *;
    RegisterFormDecodes(r1, v1, b1, ty, code, imm, at, auto, labels);
    RegisterFormDecodes(r2, v2, b2, ty, code, imm, at, auto, labels);
    MeantDetermines(r1, v1, Register(b1), r2, v2, Register(b2), ty, code, imm, Is(b1.idx), Is(b2.idx));
  }

  /** Two addresses the processor cannot tell apart: the same registers, scale and displacement, or the same distance
      from the next instruction. */
  predicate SameAddress(e1: RegExp, e2: RegExp, next: int, labels: Labels) {
    && e1.rip == e2.rip
    && if e1.rip then SignedDisp(Distance(e1, next, labels)) == SignedDisp(Distance(e2, next, labels))
       else
         var x, y := Optimize(e1), Optimize(e2);
         && x.base == y.base && x.disp == y.disp && x.index.idx == y.index.idx && (x.index == NONE <==> y.index == NONE)
         && (x.index != NONE ==> x.scale == y.scale)
         && (General(x.index) && General(y.index) ==> x.index == y.index)
  }

  lemma PlaceDetermines(e1: RegExp, e2: RegExp, reg1: int, reg2: int, next: int, labels: Labels)
    requires Encodable(e1) && Encodable(e2) && IsVsib(e1) == IsVsib(e2) && e1.index.bit != 8192 && e2.index.bit != 8192
    requires PlaceFor(e1, reg1, next, labels) == PlaceFor(e2, reg2, next, labels) && (Width(e1) == 32 <==> Width(e2) == 32)
    ensures SameAddress(e1, e2, next, labels)
  {
    hide SignedDisp, Distance, Verified;
    if !e1.rip && !e2.rip {
      WidthOf(e1);
      WidthOf(e2);
      SignedDispOnce(e1.disp, e2.disp);
    }
  }

  lemma WidthOf(e: RegExp)
    requires Encodable(e) && !e.rip && e.index.bit != 8192
    ensures var o := Optimize(e);
      && (o.base == NONE || o.base.bit == Width(e)) && (o.index == NONE || IsVsib(e) || o.index.bit == Width(e))
      && (o.base == NONE <==> o.base.bit == 0) && (o.index == NONE <==> o.index.bit == 0) && o.disp == e.disp
  {}

  lemma SignedDispOnce(a: int, b: int)
    requires 0 <= a < W64 && 0 <= b < W64 && SignedDisp(a) == SignedDisp(b)
    ensures a == b
  {}

  /** Two lossless sets of operands with memory share an encoding only if they ask for the same and lead to the same
      address. */
  lemma MemoryFormIsInjective(r1: Operand, v1: Option<Operand>, m1: Memory, r2: Operand, v2: Option<Operand>, m2: Memory,
                              ty: Type, code: u8, imm: Option<u8>, at: int, auto: bool, labels: Labels)
    requires Fits(r1, v1, InMemory(m1)) && Fits(r2, v2, InMemory(m2)) && OneMap(ty)
    requires Lossless(r1, v1, m1, ty) && Lossless(r2, v2, m2, ty)
    requires OpVex(r1, v1, InMemory(m1), ty, code, imm, at, auto, labels).Some?
    requires OpVex(r1, v1, InMemory(m1), ty, code, imm, at, auto, labels) == OpVex(r2, v2, InMemory(m2), ty, code, imm, at, auto, labels)
    ensures SameRequest(r1, v1, InMemory(m1), r2, v2, InMemory(m2), ty)
    ensures SameAddress(m1.e, m2.e, at + |OpVex(r1, v1, InMemory(m1), ty, code, imm, at, auto, labels).value|, labels)
  {
    hide *;
    var next := at + |OpVex(r1, v1, InMemory(m1), ty, code, imm, at, auto, labels).value|;
    MemoryFormDecodes(r1, v1, m1, ty, code, imm, at, auto, labels);
    MemoryFormDecodes(r2, v2, m2, ty, code, imm, at, auto, labels);
    var w1, w2 := At(PlaceFor(m1.e, r1.idx, next, labels), IsVsib(m1.e)), At(PlaceFor(m2.e, r2.idx, next, labels), IsVsib(m2.e));
    SameDecoding(r1, v1, m1, r2, v2, m2, ty, code, imm, OpVex(r1, v1, InMemory(m1), ty, code, imm, at, auto, labels).value, w1, w2);
    MeantDetermines(r1, v1, InMemory(m1), r2, v2, InMemory(m2), ty, code, imm, w1, w2);
    MemoryFits(r1, v1, m1);
    MemoryFits(r2, v2, m2);
    PlaceDetermines(m1.e, m2.e, r1.idx, r2.idx, next, labels);
  }

  lemma SameDecoding(r1: Operand, v1: Option<Operand>, m1: Memory, r2: Operand, v2: Option<Operand>, m2: Memory, ty: Type, code: u8,
                     imm: Option<u8>, bs: seq<u8>, w1: Where, w2: Where)
    requires DecodesAsMeant(r1, v1, m1, ty, code, imm, bs, w1) && DecodesAsMeant(r2, v2, m2, ty, code, imm, bs, w2)
    ensures Meant(r1, v1, InMemory(m1), ty, code, imm, w1).Some?
    ensures Meant(r1, v1, InMemory(m1), ty, code, imm, w1) == Meant(r2, v2, InMemory(m2), ty, code, imm, w2)
  {
    hide Meant, DecodeInsn;
  }

  lemma MemoryFits(r: Operand, v: Option<Operand>, m: Memory)
    requires Fits(r, v, InMemory(m))
    ensures Encodable(m.e) && m.e.index.bit != 8192
  {}

  /** Zeroing on a memory operand alone changes nothing, for all operands of an instruction without T_M_K. */
  lemma ZeroIsDropped(r: Operand, v: Option<Operand>, m: Memory, ty: Type, code: u8, imm: Option<u8>, at: int, auto: bool, labels: Labels)
    requires Fits(r, v, InMemory(m)) && !ty.mK
    ensures Fits(r, v, InMemory(m.(zero := true))) && Fits(r, v, InMemory(m.(zero := false)))
    ensures OpVex(r, v, InMemory(m.(zero := true)), ty, code, imm, at, auto, labels)
         == OpVex(r, v, InMemory(m.(zero := false)), ty, code, imm, at, auto, labels)
  {
    hide Evex, Vex, EncodeAddr, Optimize, Width, AsOperand, Override, MemoryPrefix, NeedsEvex;
    PrefixWithoutZero(r, v, m, ty, code);
  }

  lemma PrefixWithoutZero(r: Operand, v: Option<Operand>, m: Memory, ty: Type, code: u8)
    requires Fits(r, v, InMemory(m)) && !ty.mK
    ensures MemoryPrefix(r, v, m.(zero := true), ty, code) == MemoryPrefix(r, v, m.(zero := false), ty, code)
  {
    hide Evex, Vex, Optimize, AsOperand;
  }

  /** Beside a masked memory operand a mask on the register changes nothing. */
  lemma MaskIsDropped(r: Operand, v: Option<Operand>, m: Memory, ty: Type, code: u8, imm: Option<u8>, at: int, auto: bool, labels: Labels, k: int)
    requires Fits(r, v, InMemory(m)) && m.mask != 0 && 0 <= k < 8 && r.kind != OPMASK
    ensures Fits(r.(mask := k), v, InMemory(m))
    ensures OpVex(r.(mask := k), v, InMemory(m), ty, code, imm, at, auto, labels) == OpVex(r, v, InMemory(m), ty, code, imm, at, auto, labels)
  {
    hide EncodeAddr, Optimize, Width, AsOperand, Override, MemoryPrefix, NeedsEvex;
    PrefixWithoutMask(r, v, m, ty, code, k);
  }

  lemma PrefixWithoutMask(r: Operand, v: Option<Operand>, m: Memory, ty: Type, code: u8, k: int)
    requires Fits(r, v, InMemory(m)) && m.mask != 0 && 0 <= k < 8 && r.kind != OPMASK && Fits(r.(mask := k), v, InMemory(m))
    ensures MemoryPrefix(r.(mask := k), v, m, ty, code) == MemoryPrefix(r, v, m, ty, code)
  {
    BaseIsPlain(m.e);
    OptimizeEncodable(m.e);
    var base, index := AsOperand(Optimize(m.e).base), AsOperand(Optimize(m.e).index);
    hide Optimize, AsOperand, Evex, Encodable;
    EvexWithoutMask(r, base, v, ty, code, Some(index), m.broadcast, m.mask, if IsVsib(Optimize(m.e)) then Optimize(m.e).index.bit else 0,
                    index.IsSimd() && index.Ext2(), k);
  }

  lemma EvexWithoutMask(r: Operand, base: Operand, v: Option<Operand>, ty: Type, code: u8, x: Option<Operand>, b: bool, aaa: int, VL: int,
                        hi16: bool, k: int)
    requires r.Valid() && r.(mask := k).Valid() && base.Valid() && (v.Some? ==> v.value.Valid()) && 0 < aaa < 8
    ensures Evex(r.(mask := k), base, v, ty, code, x, b, aaa, VL, hi16) == Evex(r, base, v, ty, code, x, b, aaa, VL, hi16)
  {
    ControlIgnoresMask(r, base, v, ty, b, VL, k);
    assert MaskOf(r.(mask := k), base, v, aaa) == MaskOf(r, base, v, aaa) by { hide ControlOf, EvexHead; }
    hide ControlOf, MaskOf, P0, P1, P2, MapAsked, PrefixAsked;
  }

  lemma ControlIgnoresMask(r: Operand, base: Operand, v: Option<Operand>, ty: Type, b: bool, VL: int, k: int)
    requires r.Valid() && r.(mask := k).Valid() && base.Valid() && (v.Some? ==> v.value.Valid())
    ensures ControlOf(r.(mask := k), base, v, ty, b, VL) == ControlOf(r, base, v, ty, b, VL)
  {
    hide Disp8N, SaeFits, ErFits;
  }

  /** The width of vector a rounding modifier may stand on; on a general register it may stand with T_ER_R. */
  predicate RoundingFits(base: Operand, rounding: int, ty: Type) {
    if rounding == 0 then true
    else if rounding == SAE then (base.bit == 128 && ty.saeX) || (base.bit == 256 && ty.saeY) || (base.bit == 512 && ty.saeZ)
    else
      || (base.bit == 128 && ty.erX) || (base.bit == 256 && ty.erY) || (base.bit == 512 && ty.erZ)
      || (base.kind == GPR && (base.bit == 32 || base.bit == 64) && ty.erR)
  }

  lemma ControlAccepts(r: Operand, base: Operand, v: Option<Operand>, ty: Type, b: bool, VL: int)
    requires r.Valid() && base.Valid() && (v.Some? ==> v.value.Valid())
    ensures var rounding := Agreed(r.rounding, if v.Some? then v.value.rounding else 0, base.rounding);
      ControlOf(r, base, v, ty, b, VL).Some? <==> rounding.Some? && RoundingFits(base, rounding.value, ty)
  {
    AgreedIs(r.rounding, base.rounding, if v.Some? then v.value.rounding else 0);
    hide Common, Agreed, Length, Disp8N;
  }

  lemma EvexAccepts(r: Operand, base: Operand, v: Option<Operand>, ty: Type, code: u8, x: Option<Operand>, b: bool, aaa: int, VL: int, hi16: bool)
    requires r.Valid() && base.Valid() && (v.Some? ==> v.value.Valid()) && 0 <= aaa < 8
    ensures Evex(r, base, v, ty, code, x, b, aaa, VL, hi16).Some?
        <==> (ty.evex || ty.mustEvex) && ControlOf(r, base, v, ty, b, VL).Some? && MaskOf(r, base, v, aaa).Some?
  {
    hide ControlOf, MaskOf, EvexHead;
    if ControlOf(r, base, v, ty, b, VL).Some? { ControlFits(r, base, v, ty, b, VL); }
    if MaskOf(r, base, v, aaa).Some? { MaskFits(r, base, v, aaa); }
  }

  lemma VexAccepts(r: Operand, base: Operand, v: Option<Operand>, ty: Type, code: u8, x: bool)
    ensures Vex(r, base, v, ty, code, x).Some? <==> r.idx < 16 && base.idx < 16 && Idx(v) < 16
  {
    hide VexLow, VexMid, GetMap, GetPP;
  }

  /** What opVex refuses on registers: an operand only EVEX can hold if the instruction has no EVEX form, two masks, two
      roundings, and a rounding the instruction does not have. */
  lemma RegistersAccept(r: Operand, v: Option<Operand>, base: Operand, ty: Type, code: u8, imm: Option<u8>, at: int, auto: bool, labels: Labels)
    requires Fits(r, v, Register(base))
    ensures var op2 := Register(base); var mask, rounding := MaskAsked(r, v, op2), RoundingAsked(r, v, op2);
      OpVex(r, v, op2, ty, code, imm, at, auto, labels).Some?
      <==> (BeyondVex(r, v, op2, ty) ==>
        (ty.evex || ty.mustEvex) && mask.Some? && rounding.Some? && RoundingFits(base, rounding.value, ty))
  {
    var op2 := Register(base);
    BeyondIs(r, v, op2, ty);
    RegisterMask(r, v, base);
    ControlAccepts(r, base, v, ty, false, 0);
    EvexAccepts(r, base, v, ty, code, None, false, 0, 0, false);
    VexAccepts(r, base, v, ty, code, false);
    hide NeedsEvex, Evex, Vex, ControlOf, MaskOf, ZeroOf, MaskAsked, ZeroAsked, Agreed, RoundingFits, ModRM;
  }

  /** EVEX is what a memory operand gets: for a register or modifier that VEX cannot hold, but a vector index above 15. */
  predicate Evexed(r: Operand, v: Option<Operand>, m: Memory, ty: Type) {
    || ty.mustEvex || ty.memEvex || Large(r) || (v.Some? && Large(v.value)) || m.broadcast || m.mask != 0
    || m.e.base.idx >= 16 || (m.e.index.bit <= 64 && m.e.index.idx >= 16)
  }

  /** What opVex refuses beside memory, the address itself apart: zeroing on a store, an operand only EVEX can hold if
      the instruction has no EVEX form, a mask or a broadcast the instruction does not have, two masks on registers,
      two roundings, and a rounding that T_ER_R does not allow. */
  lemma MemoryAccepts(r: Operand, v: Option<Operand>, m: Memory, ty: Type, code: u8)
    requires Fits(r, v, InMemory(m))
    ensures var second := if v.Some? then v.value.mask else 0; var rounding := RoundingAsked(r, v, InMemory(m));
      MemoryPrefix(r, v, m, ty, code).Some?
      <==>
        && !(ty.mK && ZeroAsked(r, v, InMemory(m)))
        && (Evexed(r, v, m, ty) ==>
          && (ty.evex || ty.mustEvex) && (m.mask != 0 ==> ty.mK) && (m.broadcast ==> ty.b32 || ty.b64)
          && (m.mask == 0 && r.mask != 0 && second != 0 ==> r.mask == second)
          && rounding.Some? && (rounding.value == 0 || (rounding.value != SAE && ty.erR && HasBase(m.e))))
  {
    var e := Optimize(m.e);
    var base, index := AsOperand(e.base), AsOperand(e.index);
    var VL, hi16 := if IsVsib(e) then e.index.bit else 0, index.IsSimd() && index.Ext2();
    EvexedIs(r, v, m, ty);
    MemoryBase(r, v, m, ty, VL);
    EvexAccepts(r, base, v, ty, code, Some(index), m.broadcast, m.mask, VL, hi16);
    VexAccepts(r, base, v, ty, code, index.Ext());
    hide NeedsEvex, Evexed, Evex, Vex, ControlOf, MaskOf, Optimize, AsOperand, IsVsib, Encodable, Placeable, RoundingAsked, HasBase;
  }

  /** What the base register of the address, as the operand evex() works on, leaves of its checks. */
  lemma MemoryBase(r: Operand, v: Option<Operand>, m: Memory, ty: Type, VL: int)
    requires Fits(r, v, InMemory(m))
    ensures var base := AsOperand(Optimize(m.e).base); var second := if v.Some? then v.value.mask else 0;
      var rounding := RoundingAsked(r, v, InMemory(m));
      && base.Valid()
      && (ControlOf(r, base, v, ty, m.broadcast, VL).Some?
          <==> rounding.Some? && (rounding.value == 0 || (rounding.value != SAE && ty.erR && HasBase(m.e))))
      && (MaskOf(r, base, v, m.mask).Some? <==> (m.mask == 0 && r.mask != 0 && second != 0 ==> r.mask == second))
      && (ZeroAsked(r, v, InMemory(m)) <==> r.zero || (v.Some? && v.value.zero) || m.zero)
      && (!Evexed(r, v, m, ty) ==> base.idx < 16)
  {
    var base := AsOperand(Optimize(m.e).base);
    BaseIsPlain(m.e);
    BaseWidth(m.e);
    ControlAccepts(r, base, v, ty, m.broadcast, VL);
    hide ControlOf, Optimize, AsOperand, Large, Encodable, Placeable;
  }

  /** There is a base register, or an index that is made one. */
  predicate HasBase(e: RegExp) {
    e.base.bit != 0 || (e.index.bit != 0 && e.index.bit <= 64 && e.scale == 2)
  }

  lemma BaseWidth(e: RegExp)
    requires Encodable(e)
    ensures var b := AsOperand(Optimize(e).base); b.kind == GPR && b.bit == (if !HasBase(e) then 0 else if e.base.bit != 0 then e.base.bit else e.index.bit)
    ensures HasBase(e) ==> AsOperand(Optimize(e).base).bit in {32, 64}
    ensures AsOperand(Optimize(e).base).idx < 16 || e.base.idx >= 16 || (e.index.bit <= 64 && e.index.idx >= 16)
  {}

  lemma EvexedIs(r: Operand, v: Option<Operand>, m: Memory, ty: Type)
    requires Fits(r, v, InMemory(m))
    ensures NeedsEvex(r, v, InMemory(m), ty) <==> Evexed(r, v, m, ty)
    ensures !Evexed(r, v, m, ty) ==> r.idx < 16 && Idx(v) < 16
  {
    LargeIs(r);
    if v.Some? { LargeIs(v.value); }
    hide Operand.HasEvex;
  }

  const RAX := RegExp(Reg(0, 64), NONE, 1, 0, None, false, false)

  function Zmm(i: int, k: int): Operand { Operand(ZMM, i, 512, false, k, 0) }

  /** An EVEX type of map 0F; stores take a mask on memory. */
  function PlainEvex(mK: bool): Type {
    GATHER.(p66 := false, m0F := true, m0F38 := false, w1 := false, vsib := false, evex := true, mK := mK)
  }

  /** vaddps zmm1{k1}, zmm2, [rax]{z}: accepted, zeroing is asked for, and the bytes are those of merging. */
  lemma VaddpsMerges()
    ensures var ty, m := PlainEvex(false), Memory(RAX, false, true, 0);
      var r, v := Zmm(1, 1), Some(Zmm(2, 0));
      && Fits(r, v, InMemory(m)) && Fits(r, v, InMemory(m.(zero := false)))
      && OpVex(r, v, InMemory(m), ty, 0x58, None, 0, false, map[]).Some?
      && OpVex(r, v, InMemory(m), ty, 0x58, None, 0, false, map[]) == OpVex(r, v, InMemory(m.(zero := false)), ty, 0x58, None, 0, false, map[])
      && ZeroAsked(r, v, InMemory(m)) && !ZeroAsked(r, v, InMemory(m.(zero := false)))
      && !Lossless(r, v, m, ty) && Lossless(r, v, m.(zero := false), ty)
  {
    var ty, m := PlainEvex(false), Memory(RAX, false, true, 0);
    assert Optimize(RAX) == RAX;
    ZeroIsDropped(Zmm(1, 1), Some(Zmm(2, 0)), m, ty, 0x58, None, 0, false, map[]);
    hide MapAsked, PrefixAsked, Disp8N, ModDisp, Head, Tail, EvexHead;
  }

  lemma StoreAccepted()
    ensures Fits(Zmm(0, 0), None, InMemory(Memory(RAX, false, false, 1)))
    ensures OpVex(Zmm(0, 0), None, InMemory(Memory(RAX, false, false, 1)), PlainEvex(true), 0x29, None, 0, false, map[]).Some?
  {
    assert Optimize(RAX) == RAX;
    hide MapAsked, PrefixAsked, Disp8N, ModDisp, Head, Tail, EvexHead;
  }

  lemma StoreLossless()
    requires Fits(Zmm(0, 0), None, InMemory(Memory(RAX, false, false, 1)))
    ensures Lossless(Zmm(0, 0), None, Memory(RAX, false, false, 1), PlainEvex(true))
  {
    hide ScalesNothing;
  }

  /** vmovaps [rax]{k1}, zmm0{k2}: accepted, and the bytes are those without k2. */
  lemma VmovapsForgets()
    ensures var ty, m := PlainEvex(true), Memory(RAX, false, false, 1);
      && Fits(Zmm(0, 2), None, InMemory(m)) && Fits(Zmm(0, 0), None, InMemory(m))
      && OpVex(Zmm(0, 2), None, InMemory(m), ty, 0x29, None, 0, false, map[]).Some?
      && OpVex(Zmm(0, 2), None, InMemory(m), ty, 0x29, None, 0, false, map[]) == OpVex(Zmm(0, 0), None, InMemory(m), ty, 0x29, None, 0, false, map[])
      && MaskAsked(Zmm(0, 2), None, InMemory(m)) == None && !Lossless(Zmm(0, 2), None, m, ty) && Lossless(Zmm(0, 0), None, m, ty)
  {
    hide OpVex, Fits, ScalesNothing, NeedsEvex, ModeOf, TupleSuits, ZeroKept;
    StoreAccepted();
    StoreLossless();
    MaskIsDropped(Zmm(0, 0), None, Memory(RAX, false, false, 1), PlainEvex(true), 0x29, None, 0, false, map[], 2);
  }

  /** Rounding beside memory, as in vcvtsi2ss xmm1{rd}, xmm2, [rax], passes the check that is meant for the other
      operand: the base register is taken for it. The bytes then say broadcast with 256 bits. */
  lemma RoundingIsAccepted()
    ensures var ty, m := PlainEvex(false).(erR := true), Memory(RAX, false, false, 0);
      var r := Xmm(1).(rounding := 2);
      && Fits(r, Some(Xmm(2)), InMemory(m)) && OpVex(r, Some(Xmm(2)), InMemory(m), ty, 0x2A, None, 0, false, map[]).Some?
      && RoundingAsked(r, Some(Xmm(2)), InMemory(m)) == Some(2) && !Lossless(r, Some(Xmm(2)), m, ty)
      && ControlOf(r, AsOperand(RAX.base), Some(Xmm(2)), ty, false, 0) == Some(Control(1, true, 1))
  {
    assert Optimize(RAX) == RAX;
    hide MapAsked, PrefixAsked, Disp8N, ModDisp, Head, Tail, EvexHead;
  }

  /** With a vector operand, no tile register and no modifier in vain, only the kind of address matters. */
  lemma OrdinaryIsLossless(r: Operand, v: Option<Operand>, m: Memory, ty: Type)
    requires Fits(r, v, InMemory(m)) && OneMap(ty)
    requires Unrounded(r, v) && MaskAsked(r, v, InMemory(m)).Some? && ZeroKept(r, v, m)
    requires AnyWidth(r, v, InMemory(m), 128) && !AnyWidth(r, v, InMemory(m), 8192)
    ensures Lossless(r, v, m, ty) <==>
      && ModeOf(m.e) != Disp64 && ty.vsib == IsVsib(m.e)
      && (IsVsib(m.e) ==> if NeedsEvex(r, v, InMemory(m), ty) then Idx(v) < 16 else m.e.index.idx < 16)
  {
    hide AnyWidth, NeedsEvex, ScalesNothing, MaskAsked, ZeroKept, Fits, ModeOf;
  }
}
