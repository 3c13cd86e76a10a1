/** xbyak/xbyak.h: vex, evex and opVex as they write into the code buffer. */
module PrefixEmitters {
  import opened AddressEncoder
  import opened Bytes
  import opened PrefixEncoder
  import opened PrefixMeanings
  import opened RegExps

  /** The bytes decode to what the operands ask for, next being the address of the following instruction. */
  ghost predicate Says(r: Operand, v: Option<Operand>, op2: RegMem, ty: Type, code: u8, imm: Option<u8>, bs: seq<u8>, next: int, labels: Labels) {
    match op2
    case Register(base) =>
      var meant := Meant(r, v, op2, ty, code, imm, Is(base.idx));
      meant.Some? && DecodeInsn(bs, base.IsSimd(), ty, if imm.Some? then 1 else 0) == meant
    case InMemory(m) => DecodesAsMeant(r, v, m, ty, code, imm, bs, At(PlaceFor(m.e, r.idx, next, labels), IsVsib(m.e)))
  }

  lemma OpVexSays(r: Operand, v: Option<Operand>, op2: RegMem, ty: Type, code: u8, imm: Option<u8>, at: int, auto: bool, labels: Labels,
                  bs: seq<u8>)
    requires Fits(r, v, op2) && OneMap(ty) && OpVex(r, v, op2, ty, code, imm, at, auto, labels) == Some(bs)
    ensures Says(r, v, op2, ty, code, imm, bs, at + |bs|, labels) <==> op2.Register? || Lossless(r, v, op2.m, ty)
  {
    hide OpVex, Meant, DecodeInsn, DecodesAsMeant, Lossless, OneMap, Fits, PlaceFor, IsVsib;
    match op2
    case Register(base) => RegisterFormDecodes(r, v, base, ty, code, imm, at, auto, labels);
    case InMemory(m) => MemoryFormDecodes(r, v, m, ty, code, imm, at, auto, labels);
  }

  class PrefixEmitter {
    const code: AddressEmitter

    constructor (code: AddressEmitter)
      ensures this.code == code
    {
      this.code := code;
    }

    method Db(b: u8)
      modifies code`buf
      ensures code.buf == old(code.buf) + [b]
    {
      code.buf := code.buf + [b];
    }

    method Db3(a: u8, b: u8, c: u8)
      modifies code`buf
      ensures code.buf == old(code.buf) + [a, b, c]
    {
      Db(a);
      Db(b);
      Db(c);
    }

    method Db4(a: u8, b: u8, c: u8, d: u8)
      modifies code`buf
      ensures code.buf == old(code.buf) + [a, b, c, d]
    {
      Db3(a, b, c);
      Db(d);
    }

    method Db5(a: u8, b: u8, c: u8, d: u8, e: u8)
      modifies code`buf
      ensures code.buf == old(code.buf) + [a, b, c, d, e]
    {
      Db4(a, b, c, d);
      Db(e);
    }

    /** vex. */
    method PutVex(reg: Operand, base: Operand, v: Option<Operand>, ty: Type, opcode: u8, x: bool) returns (ok: bool)
      modifies code`buf
      ensures var p := Vex(reg, base, v, ty, opcode, x); ok == p.Some? && (ok ==> code.buf == old(code.buf) + p.value)
    {
      hide GetMap, GetPP, Operand.Ext, VexLow, VexMid;
      var r, b := reg.Ext(), base.Ext();
      var idx := if v.Some? then v.value.idx else 0;
      if idx >= 16 || reg.idx >= 16 || base.idx >= 16 { return false; }
      var is256 := ty.l1 || reg.kind == YMM;
      if !b && !x && !ty.w1 && ty.m0F {
        Db3(0xC5, VexLow(!r, idx, is256, GetPP(ty)), opcode);
      } else {
        Db4(0xC4, VexMid(r, x, b, GetMap(ty)), VexLow(ty.w1, idx, is256, GetPP(ty)), opcode);
      }
      ok := true;
    }

    /** evex, with its result disp8N. */
    method PutEvex(reg: Operand, base: Operand, v: Option<Operand>, ty: Type, opcode: u8, x: Option<Operand>, b0: bool,
                   aaa0: int, VL0: int, hi16: bool) returns (ok: bool, disp8N: nat)
      requires reg.Valid() && base.Valid() && (v.Some? ==> v.value.Valid()) && 0 <= aaa0 < 8
      modifies code`buf
      ensures var p := Evex(reg, base, v, ty, opcode, x, b0, aaa0, VL0, hi16);
        ok == p.Some? && (ok ==> code.buf == old(code.buf) + p.value.0 && disp8N == p.value.1)
    {
      hide ControlOf, MaskOf, ZeroOf, Operand.Valid, Operand.Ext, Operand.Ext2, Operand.IsSimd, GetMap, GetPP, P0, P1, P2, EvexHead;
      if !ty.evex && !ty.mustEvex { return false, 1; }
      var X3 := (x.Some? && x.value.Ext()) || (base.IsSimd() && base.Ext2());
      var X4 := x.Some? && x.value.kind == GPR && x.value.Ext2();
      var ll, b, aaa, z;
      ok, ll, b, disp8N := Choose(reg, base, v, ty, b0, VL0);
      if !ok { return; }
      var V4 := (v.Some? && v.value.Ext2()) || hi16;
      ok, aaa, z := ChooseMask(reg, base, v, aaa0);
      if !ok { return; }
      ControlFits(reg, base, v, ty, b0, VL0);
      MaskFits(reg, base, v, aaa0);
      Db5(0x62, P0(reg.Ext(), X3, base.Ext(), reg.Ext2(), base.kind == GPR && base.Ext2(), GetMap(ty)),
          P1(ty.ew1, Idx(v), X4, GetPP(ty)), P2(z, ll, b, V4, aaa), opcode);
      EvexHeadIs(reg, base, v, ty, opcode, x, Control(ll, b, disp8N), aaa, hi16);
    }

    /** The part of evex that settles the mask; zeroing is dropped without one. */
    method ChooseMask(reg: Operand, base: Operand, v: Option<Operand>, aaa0: int) returns (ok: bool, aaa: int, z: bool)
      ensures var m := MaskOf(reg, base, v, aaa0);
        ok == m.Some? && (ok ==> aaa == m.value && z == (ZeroOf(reg, base, v) && aaa != 0))
    {
      z := reg.zero || base.zero || (v.Some? && v.value.zero);
      aaa := aaa0;
      if aaa == 0 {
        var common := Common(base.mask, reg.mask, if v.Some? then v.value.mask else 0);
        if common.None? { return false, 0, false; }
        aaa := common.value;
      }
      if aaa == 0 { z := false; }
      ok := true;
    }

    /** The part of evex that settles rounding, vector length and disp8N. */
    method Choose(reg: Operand, base: Operand, v: Option<Operand>, ty: Type, b0: bool, VL0: int)
        returns (ok: bool, ll: int, b: bool, disp8N: nat)
      ensures var c := ControlOf(reg, base, v, ty, b0, VL0); ok == c.Some? && (ok ==> c == Some(Control(ll, b, disp8N)))
    {
      ok, ll, b, disp8N := false, 0, b0, 1;
      var rounding := Common(reg.rounding, base.rounding, if v.Some? then v.value.rounding else 0);
      if rounding.None? { return; }
      if rounding.value != 0 {
        if rounding.value == 5 {
          if !SaeFits(base, ty) { return; }
        } else {
          if !ErFits(base, ty) { return; }
          ll := rounding.value - 1;
        }
        b := true;
      } else {
        var VL := VL0;
        if v.Some? { VL := Max(VL, v.value.bit); }
        VL := Max(Max(reg.bit, base.bit), VL);
        ll := if VL >= 512 then 2 else if VL == 256 then 1 else 0;
        if b {
          disp8N := if ty.b32 && ty.b64 then 2 else if ty.b32 then 4 else 8;
        } else if ty.nx == NX_DUP {
          disp8N := if VL == 128 then 8 else if VL == 256 then 32 else 64;
        } else {
          var low, nVL := ty.nx, ty.nVL;
          if low == 0 && !nVL { low, nVL := 5, true; }
          if low > 0 {
            disp8N := Power(low - 1);
            if nVL { disp8N := disp8N * (if VL == 512 then 4 else if VL == 256 then 2 else 1); }
          }
        }
      }
      ok := true;
    }

    /** opVex. */
    method PutOpVex(r: Operand, v: Option<Operand>, op2: RegMem, ty: Type, opcode: u8, imm: Option<u8>) returns (ok: bool)
      requires Fits(r, v, op2)
      modifies code
      ensures var i := OpVex(r, v, op2, ty, opcode, imm, code.base + |old(code.buf)|, code.auto, code.labels);
        ok == i.Some? && (ok ==> code.buf == old(code.buf) + i.value)
      ensures ok && OneMap(ty) ==>
        (Says(r, v, op2, ty, opcode, imm, code.buf[|old(code.buf)|..], code.base + |code.buf|, code.labels)
         <==> op2.Register? || Lossless(r, v, op2.m, ty))
      ensures ok ==> code.fixups == old(code.fixups) + (if op2.InMemory? && imm.Some? then Fixups(op2.m.e, |code.buf| - 1, 1, code.labels)
           else if op2.InMemory? then Fixups(op2.m.e, |code.buf|, 0, code.labels) else [])
    {
      hide Vex, Evex, NeedsEvex, ModRM, Operand.Valid, MemoryPart, RegisterPrefix, Encodable, Says, Lossless, OneMap, Fits;
      ghost var before := code.buf;
      match op2 {
        case Register(base) => ok := PutRegister(r, v, base, ty, opcode);
        case InMemory(m) => ok := PutMemory(r, v, m, ty, opcode, if imm.Some? then 1 else 0);
      }
      if ok && imm.Some? { Db(imm.value); }
      if ok {
        ghost var bs := OpVex(r, v, op2, ty, opcode, imm, code.base + |before|, code.auto, code.labels).value;
        assert code.buf == before + bs;
        assert code.buf[|before|..] == bs;
        if OneMap(ty) { OpVexSays(r, v, op2, ty, opcode, imm, code.base + |before|, code.auto, code.labels, bs); }
      }
    }

    method PutRegister(r: Operand, v: Option<Operand>, base: Operand, ty: Type, opcode: u8) returns (ok: bool)
      requires Fits(r, v, Register(base))
      modifies code`buf
      ensures var p := RegisterPrefix(r, v, base, ty, opcode);
        ok == p.Some? && (ok ==> code.buf == old(code.buf) + (p.value + [ModRM(3, r.idx, base.idx)]))
    {
      hide Vex, Evex, NeedsEvex, ModRM, Operand.Valid;
      if NeedsEvex(r, v, Register(base), ty) {
        var n;
        ok, n := PutEvex(r, base, v, ty, opcode, None, false, 0, 0, false);
      } else {
        ok := PutVex(r, base, v, ty, opcode, false);
      }
      if ok { code.SetModRM(3, r.idx, base.idx); }
    }

    method PutMemory(r: Operand, v: Option<Operand>, m: Memory, ty: Type, opcode: u8, immSize: nat) returns (ok: bool)
      requires Fits(r, v, InMemory(m))
      modifies code
      ensures var p := MemoryPart(r, v, m, ty, opcode, immSize, code.base + |old(code.buf)|, code.auto, code.labels);
        ok == p.Some? && (ok ==> code.buf == old(code.buf) + p.value)
      ensures ok ==> code.fixups == old(code.fixups) + Fixups(m.e, |code.buf|, immSize, code.labels)
    {
      hide MemoryPrefix, EncodeAddr, Operand.Valid, Encodable;
      if Width(m.e) == 32 { Db(0x67); }
      var disp8N;
      ok, disp8N := PutMemoryPrefix(r, v, m, ty, opcode);
      if !ok { return; }
      ok := code.OpAddr(m.e, r.idx, disp8N, ty.vsib, immSize);
    }

    method PutMemoryPrefix(r: Operand, v: Option<Operand>, m: Memory, ty: Type, opcode: u8) returns (ok: bool, disp8N: nat)
      requires Fits(r, v, InMemory(m))
      modifies code`buf
      ensures var p := MemoryPrefix(r, v, m, ty, opcode);
        ok == p.Some? && (ok ==> code.buf == old(code.buf) + p.value.0 && disp8N == p.value.1)
    {
      var e := Optimize(m.e);
      var base, index := AsOperand(e.base), AsOperand(e.index);
      OptimizeEncodable(m.e);
      assert base.Valid();
      hide Vex, Evex, NeedsEvex, Operand.Valid, Operand.Ext, Operand.Ext2, Encodable, Optimize, AsOperand, IsVsib;
      disp8N := 0;
      if ty.mK && (r.zero || (v.Some? && v.value.zero) || m.zero) { return false, 0; }
      if NeedsEvex(r, v, InMemory(m), ty) {
        if m.mask != 0 && !ty.mK { return false, 0; }
        if m.broadcast && !ty.b32 && !ty.b64 { return false, 0; }
        var VL := if IsVsib(e) then e.index.bit else 0;
        ok, disp8N := PutEvex(r, base, v, ty, opcode, Some(index), m.broadcast, m.mask, VL, index.IsSimd() && index.Ext2());
      } else {
        ok := PutVex(r, base, v, ty, opcode, index.Ext());
      }
    }
  }
}
