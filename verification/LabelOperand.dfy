/** xbyak/xbyak.h: instructions with an operand [rip + label + n], from the emitters through the label engine to the
    decoder, in a fixed and in a growing buffer. */
module LabelOperands {
  import Arith
  import opened AddressEncoder
  import opened Assembler
  import opened Bytes
  import opened Refinement
  import opened RegExps
  import opened TwoPass
  import Legacy = LegacyEncoder
  import Prefixes = PrefixEncoder
  import Meanings = PrefixMeanings

  /** buf is the finished code of the calls, at base. */
  ghost predicate Finished(ops: seq<Op>, base: nat, defaultNear: bool, buf: seq<u8>) {
    Rendered(ops, base, defaultNear, buf) && Layout(ops, base, defaultNear).value.size <= LIMIT
  }

  /** What a session in a fixed buffer returns is finished. */
  lemma FixedFinishes(base: nat, maxSize: nat, defaultNear: bool, alloc: Allocator, ops: seq<Op>, targets: set<nat>)
    requires maxSize <= LIMIT && PageAlloc(alloc) && AllSane(false, ops, targets)
    ensures var b := Assemble(Fresh(false, defaultNear, base, maxSize), alloc, ops);
      b.Some? ==> Finished(ops, base, defaultNear, b.value)
  {
    hide Assemble, Layout, Render;
    OnePassIsTwoPass(base, maxSize, defaultNear, alloc, ops, targets);
  }

  /** What a session in a growing buffer returns is finished, at the address the buffer has in the end. */
  lemma GrownFinishes(base0: nat, maxSize: nat, defaultNear: bool, alloc: Allocator, ops: seq<Op>, targets: set<nat>)
    requires base0 % PAGE == 0 && PageAlloc(alloc) && AllSane(true, ops, targets)
    ensures var s := Fresh(true, defaultNear, base0, maxSize);
      var t, b := Run(s, alloc, ops), Assemble(s, alloc, ops);
      b.Some? && |b.value| <= LIMIT ==> t.Some? && Finished(ops, t.value.base, defaultNear, b.value)
  {
    hide Layout, Render, Run, AllFit, AllFarFit, Complete;
    AutoGrowResult(base0, maxSize, defaultNear, alloc, ops, targets);
    GrownSize(Fresh(true, defaultNear, base0, maxSize), alloc, ops);
  }

  lemma GrownSize(s: State, alloc: Allocator, ops: seq<Op>)
    requires Valid(s)
    ensures var t, b := Run(s, alloc, ops), Assemble(s, alloc, ops); b.Some? ==> t.Some? && |b.value| == |t.value.buf|
  {
    hide Run, Applied, PatchFits;
  }

  function Calls(bs: seq<u8>): seq<Op> {
    seq(|bs|, i requires 0 <= i < |bs| => Db(bs[i]))
  }

  /** The calls an instruction amounts to: one for each byte, but for the four bytes of a label operand the one of
      opAddr that puts the label, with the size of the immediate taken off. */
  function InsnCalls(bs: seq<u8>, e: RegExp, immSize: nat): seq<Op> {
    if e.named.None? || |bs| < immSize + 4 then Calls(bs)
    else
      var k := |bs| - immSize - 4;
      Calls(bs[..k]) + [PutRel(e.named.value, SignedDisp(e.disp) - immSize)] + Calls(bs[k + 4..])
  }

  function Raws(bs: seq<u8>): seq<Piece> {
    seq(|bs|, i requires 0 <= i < |bs| => Raw([bs[i]]))
  }

  lemma {:induction false} LayoutCalls(pre: seq<Op>, bs: seq<u8>, base: nat, defaultNear: bool)
    requires Layout(pre, base, defaultNear).Some?
    ensures var p := Layout(pre, base, defaultNear).value;
      Layout(pre + Calls(bs), base, defaultNear) == Some(Plan(p.pieces + Raws(bs), p.size + |bs|, p.defs))
    decreases |bs|
  {
    hide Layout;
    if bs == [] {
      assert pre + Calls(bs) == pre;
      assert Layout(pre, base, defaultNear).value.pieces + Raws(bs) == Layout(pre, base, defaultNear).value.pieces;
    } else {
      var init, b := bs[..|bs| - 1], bs[|bs| - 1];
      LayoutCalls(pre, init, base, defaultNear);
      assert Calls(bs) == Calls(init) + [Db(b)] && pre + Calls(bs) == (pre + Calls(init)) + [Db(b)];
      assert Raws(bs) == Raws(init) + [Raw([b])];
      LayoutOne(pre + Calls(init), Db(b), base, defaultNear);
      var ps := Layout(pre, base, defaultNear).value.pieces;
      assert ps + Raws(init) + [Raw([b])] == ps + (Raws(init) + [Raw([b])]);
    }
  }

  lemma LayoutOne(pre: seq<Op>, op: Op, base: nat, defaultNear: bool)
    requires Layout(pre, base, defaultNear).Some?
    ensures Layout(pre + [op], base, defaultNear) == TwoPass.Place(Layout(pre, base, defaultNear).value, op, base, defaultNear)
  {
    assert (pre + [op])[..|pre|] == pre;
  }

  lemma LayoutInsn(pre: seq<Op>, bs: seq<u8>, e: RegExp, immSize: nat, base: nat, defaultNear: bool)
    requires Layout(pre, base, defaultNear).Some? && e.named.Some? && |bs| >= immSize + 4
    ensures var p, k := Layout(pre, base, defaultNear).value, |bs| - immSize - 4;
      var q := Rel([], e.named.value, p.size + k + 4, 4, SignedDisp(e.disp) - immSize);
      Layout(pre + InsnCalls(bs, e, immSize), base, defaultNear)
      == Some(Plan(p.pieces + (Raws(bs[..k]) + [q] + Raws(bs[k + 4..])), p.size + |bs|, p.defs))
  {
    hide Layout, Calls, Raws, SignedDisp, InsnCalls;
    var p, k := Layout(pre, base, defaultNear).value, |bs| - immSize - 4;
    var op := PutRel(e.named.value, SignedDisp(e.disp) - immSize);
    var a := pre + Calls(bs[..k]);
    var q := Rel([], e.named.value, p.size + k + 4, 4, SignedDisp(e.disp) - immSize);
    CallsAre(pre, bs, e, immSize);
    LayoutCalls(pre, bs[..k], base, defaultNear);
    LayoutOne(a, op, base, defaultNear);
    LayoutPut(Plan(p.pieces + Raws(bs[..k]), p.size + k, p.defs), op, base, defaultNear);
    LayoutCalls(a + [op], bs[k + 4..], base, defaultNear);
    assert p.pieces + Raws(bs[..k]) + [q] + Raws(bs[k + 4..]) == p.pieces + (Raws(bs[..k]) + [q] + Raws(bs[k + 4..]));
  }

  lemma CallsAre(pre: seq<Op>, bs: seq<u8>, e: RegExp, immSize: nat)
    requires e.named.Some? && |bs| >= immSize + 4
    ensures var k := |bs| - immSize - 4;
      pre + InsnCalls(bs, e, immSize)
      == pre + Calls(bs[..k]) + [PutRel(e.named.value, SignedDisp(e.disp) - immSize)] + Calls(bs[k + 4..])
  {
    hide Calls, SignedDisp;
  }

  lemma LayoutPut(p: Plan, op: Op, base: nat, defaultNear: bool)
    requires op.PutRel?
    ensures TwoPass.Place(p, op, base, defaultNear)
         == Some(Plan(p.pieces + [Rel([], op.id, p.size + 4, 4, op.disp)], p.size + 4, p.defs))
  {}

  lemma {:induction false} RenderRaws(bs: seq<u8>, table: map<nat, nat>, base: nat)
    ensures Render(Raws(bs), table, base) == bs
    decreases |bs|
  {
    if bs != [] {
      var init := bs[..|bs| - 1];
      RenderRaws(init, table, base);
      assert Raws(bs)[..|bs| - 1] == Raws(init);
      assert bs == init + [bs[|bs| - 1]];
    }
  }

  /** In finished code the bytes of an instruction with a label operand are those it was emitted with, but for the four
      that now hold the distance to the label. */
  lemma InsnIsRendered(pre: seq<Op>, bs: seq<u8>, e: RegExp, immSize: nat, post: seq<Op>, base: nat, defaultNear: bool, buf: seq<u8>)
    requires e.named.Some? && |bs| >= immSize + 4 && Finished(pre + InsnCalls(bs, e, immSize) + post, base, defaultNear, buf)
    ensures Layout(pre, base, defaultNear).Some?
    ensures var off, k := Layout(pre, base, defaultNear).value.size, |bs| - immSize - 4;
      var defs := Layout(pre + InsnCalls(bs, e, immSize) + post, base, defaultNear).value.defs;
      && off + |bs| <= |buf| <= LIMIT && e.named.value in defs
      && var v := defs[e.named.value] + SignedDisp(e.disp) - immSize - (off + k + 4);
         InInt32(v) && buf[off..off + |bs|] == bs[..k] + LE(v, 4) + bs[k + 4..]
  {
    hide Layout, SignedDisp, InsnCalls, Raws, Piece.Content, LE, Placed, Render;
    var ops, calls, k := pre + InsnCalls(bs, e, immSize) + post, InsnCalls(bs, e, immSize), |bs| - immSize - 4;
    LayoutGrows(ops, |pre|, base, defaultNear);
    LayoutGrows(ops, |pre| + |calls|, base, defaultNear);
    assert ops[..|pre|] == pre && ops[..|pre| + |calls|] == pre + calls;
    LayoutInsn(pre, bs, e, immSize, base, defaultNear);
    var p, final := Layout(pre, base, defaultNear).value, Layout(ops, base, defaultNear).value;
    var q := Rel([], e.named.value, p.size + k + 4, 4, SignedDisp(e.disp) - immSize);
    var mid := Raws(bs[..k]) + [q] + Raws(bs[k + 4..]);
    var rest := final.pieces[|p.pieces + mid|..];
    assert final.pieces == p.pieces + mid + rest;
    LayoutPlaced(pre, base, defaultNear);
    LayoutPlaced(ops, base, defaultNear);
    PieceIsGood(final, |p.pieces| + |Raws(bs[..k])|, q);
    RenderMiddle(p.pieces, p.size, mid, rest, final.defs, base);
    RenderMid(bs, k, q, final.defs, base);
    assert final.pieces + [] == final.pieces;
    PlacedPrefix(final.pieces, [], final.size, final.defs, base);
  }

  lemma PieceIsGood(p: Plan, i: nat, q: Piece)
    requires i < |p.pieces| && p.pieces[i] == q && Complete(p) && AllFit(p.pieces, p.defs) && q.Rel? && q.size == 4
    ensures q.id in p.defs && InInt32(p.defs[q.id] + q.disp - q.end)
  {}

  lemma RenderMiddle(a: seq<Piece>, size: nat, mid: seq<Piece>, rest: seq<Piece>, table: map<nat, nat>, base: nat)
    requires Placed(a, size)
    ensures var r, m := Render(a + mid + rest, table, base), Render(mid, table, base);
      size + |m| <= |r| && r[size..size + |m|] == m
  {
    hide Render, Placed;
    RenderConcat(a + mid, rest, table, base, false);
    RenderConcat(a, mid, table, base, false);
    assert a + [] == a;
    PlacedPrefix(a, [], size, table, base);
  }

  lemma RenderMid(bs: seq<u8>, k: nat, q: Piece, table: map<nat, nat>, base: nat)
    requires k + 4 <= |bs| && q.Rel? && q.head == [] && q.size == 4 && q.id in table
    ensures Render(Raws(bs[..k]) + [q] + Raws(bs[k + 4..]), table, base)
         == bs[..k] + LE(table[q.id] + q.disp - q.end, 4) + bs[k + 4..]
  {
    hide Raws, LE, Render, Piece.Content;
    RenderConcat(Raws(bs[..k]) + [q], Raws(bs[k + 4..]), table, base, false);
    RenderConcat(Raws(bs[..k]), [q], table, base, false);
    RenderOne(q, table, base, false);
    RenderRaws(bs[..k], table, base);
    RenderRaws(bs[k + 4..], table, base);
    FieldContent(q, table, base);
  }

  lemma FieldContent(q: Piece, table: map<nat, nat>, base: nat)
    requires q.Rel? && q.head == [] && q.size == 4 && q.id in table
    ensures q.Content(table, base) == LE(table[q.id] + q.disp - q.end, 4)
  {
    hide LE;
    var v := table[q.id] + q.disp - q.end;
    assert [] + LE(v, 4) == LE(v, 4);
  }

  /** The addresses of the labels of finished code. */
  function Addresses(defs: map<nat, nat>, base: nat): Labels {
    map id | id in defs :: base + defs[id]
  }

  /** bs with the distance d in the four bytes before the immediate. */
  function Filled(bs: seq<u8>, d: int, immSize: nat): seq<u8>
    requires |bs| >= immSize + 4
  {
    var k := |bs| - immSize - 4;
    bs[..k] + LE(d % W32, 4) + bs[k + 4..]
  }

  /** In finished code: the bytes of the instruction are those with the distance from the next instruction filled in,
      and the distance leads to the label. */
  lemma InsnIsFilled(pre: seq<Op>, bs: seq<u8>, e: RegExp, immSize: nat, post: seq<Op>, base: nat, defaultNear: bool, buf: seq<u8>)
      returns (off: nat, labels: Labels)
    requires e.named.Some? && 0 <= e.disp < W64 && |bs| >= immSize + 4
    requires Finished(pre + InsnCalls(bs, e, immSize) + post, base, defaultNear, buf)
    ensures Layout(pre, base, defaultNear).Some? && off == Layout(pre, base, defaultNear).value.size
    ensures Layout(pre + InsnCalls(bs, e, immSize) + post, base, defaultNear).Some?
    ensures labels == Addresses(Layout(pre + InsnCalls(bs, e, immSize) + post, base, defaultNear).value.defs, base)
    ensures var next := base + off + |bs|; var d := Distance(e, next, labels);
      && Resolved(e, labels) && off + |bs| <= |buf| && DispFits(d) && buf[off..off + |bs|] == Filled(bs, d, immSize)
      && next + SignedDisp(d) == labels[e.named.value] + SignedDisp(e.disp)
  {
    hide Layout, InsnCalls, Render;
    InsnIsRendered(pre, bs, e, immSize, post, base, defaultNear, buf);
    off := Layout(pre, base, defaultNear).value.size;
    var defs := Layout(pre + InsnCalls(bs, e, immSize) + post, base, defaultNear).value.defs;
    labels := Addresses(defs, base);
    var v := defs[e.named.value] + SignedDisp(e.disp) - immSize - (off + (|bs| - immSize - 4) + 4);
    DistanceIs(labels[e.named.value] - (base + off + |bs|), e.disp, v);
  }

  lemma DistanceIs(a: int, disp: int, v: int)
    requires 0 <= disp < W64 && v == a + SignedDisp(disp) && InInt32(v)
    ensures var d := Wrap(a + disp); DispFits(d) && SignedDisp(d) == v && LE(d % W32, 4) == LE(v, 4)
  {
    var k := if SignedDisp(disp) == disp then 0 else 1;
    assert a + disp == v + k * W64;
    WrapMultiple(v, k);
    hide Wrap, LE, DispFits, SignedDisp;
    WrapOfInt32(v);
    LowOfWrap(v);
  }

  lemma WrapOfInt32(v: int)
    requires InInt32(v)
    ensures DispFits(Wrap(v)) && SignedDisp(Wrap(v)) == v
  {
    if v < 0 { WrapMultiple(v, 1); }
    var d := if v >= 0 then v else v + W64;
    WrapSmall(d);
    assert Wrap(v) == d;
    hide Wrap;
    RangeIs();
    DispFitsMeans(d);
  }

  lemma LowOfWrap(v: int)
    requires InInt32(v)
    ensures LE(Wrap(v) % W32, 4) == LE(v, 4)
  {
    RangeIs();
    hide LE, Range;
    var d := if v >= 0 then v else v + W64;
    if v < 0 { WrapMultiple(v, 1); }
    WrapSmall(d);
    if v < 0 { Legacy.LessMultiple(d, W32, W32); }
    Legacy.LowBytes(d % W32, v, 4);
  }

  lemma WrapSmall(v: int)
    requires 0 <= v < W64
    ensures Wrap(v) == v
  {}

  /** opMR with a label leaves its last four bytes to be filled in. */
  lemma MemoryFilled(m: Legacy.Memory, r: Legacy.Operand, ty: Legacy.Type, code: u8, immSize: nat, at0: int, at: int, auto: bool,
                     labels: Labels)
    requires m.e.named.Some? && Legacy.Fits(Legacy.InMemory(m)) && Resolved(m.e, labels)
    requires Legacy.OpMR(m, r, ty, code, immSize, at0, auto, map[]).Some?
    ensures var bs := Legacy.OpMR(m, r, ty, code, immSize, at0, auto, map[]).value;
      && |bs| >= 4
      && var d := Distance(m.e, at + |bs| + immSize, labels);
         DispFits(d) ==> Legacy.OpMR(m, r, ty, code, immSize, at, auto, labels) == Some(Filled(bs, d, 0))
  {
    hide Legacy.OpMR, LE, DispFits, Distance, EncodeAddr, Filled, ModRM, MRHead, Legacy.Fits;
    LabelFits(m);
    MRIs(m, r, ty, code, immSize, at0, auto, map[]);
    MRIs(m, r, ty, code, immSize, at, auto, labels);
    var head := MRHead(m, r, ty, code).value;
    LabelIsFilled(m.e, r.idx, 0, false, at0 + |head|, immSize, auto, labels);
    LabelIsFilled(m.e, r.idx, 0, false, at + |head|, immSize, auto, labels);
    var bs, modrm := head + ([ModRM(0, r.idx, 5)] + LE(0, 4)), ModRM(0, r.idx, 5);
    FillEnd(head, modrm, Distance(m.e, at + |bs| + immSize, labels), []);
    assert bs + [] == bs;
    var f := [modrm] + LE(Distance(m.e, at + |bs| + immSize, labels) % W32, 4);
    assert head + f + [] == head + f;
  }

  /** The part of opMR before opAddr. */
  function MRHead(m: Legacy.Memory, r: Legacy.Operand, ty: Legacy.Type, code: u8): Option<seq<u8>> {
    if ModeOf(m.e) == Disp64 || (!ty.diffSize && r.bit <= 64 && m.bit > 0 && m.bit != r.bit) then None
    else
      var p :- Legacy.RexMem(m, r, ty);
      Some(p.0 + Legacy.WriteCode(ty, r.bit, code, p.1))
  }

  lemma MRIs(m: Legacy.Memory, r: Legacy.Operand, ty: Legacy.Type, code: u8, immSize: nat, at: int, auto: bool, labels: Labels)
    requires Placeable(m.e)
    ensures var head := MRHead(m, r, ty, code);
      Legacy.OpMR(m, r, ty, code, immSize, at, auto, labels)
      == if head.None? then None
         else
           var a := EncodeAddr(m.e, r.idx, 0, false, at + |head.value|, immSize, auto, labels);
           if a.None? then None else Some(head.value + a.value)
  {
    hide Legacy.RexMem, Legacy.WriteCode, EncodeAddr, ModeOf;
  }

  lemma LabelFits(m: Legacy.Memory)
    requires Legacy.Fits(Legacy.InMemory(m))
    ensures Placeable(m.e) && (m.e.named.Some? ==> m.e.index == NONE)
  {}

  /** Filling in the distance of an operand that is followed by tail. */
  lemma FillEnd(head: seq<u8>, modrm: u8, d: int, tail: seq<u8>)
    ensures var bs := head + ([modrm] + LE(0, 4)) + tail;
      |bs| >= |tail| + 4 && Filled(bs, d, |tail|) == head + ([modrm] + LE(d % W32, 4)) + tail
  {
    hide LE;
    var bs := head + ([modrm] + LE(0, 4)) + tail;
    assert bs[..|bs| - |tail| - 4] == head + [modrm] && bs[|bs| - |tail|..] == tail;
  }

  /** The immediate goes behind the label's field. */
  lemma FillBefore(bs: seq<u8>, d: int, tail: seq<u8>)
    requires |bs| >= 4
    ensures Filled(bs + tail, d, |tail|) == Filled(bs, d, 0) + tail
  {
    hide LE;
    var all := bs + tail;
    assert all[..|all| - |tail| - 4] == bs[..|bs| - 4] && all[|all| - |tail|..] == tail && bs[|bs|..] == [];
  }

  /** opSSE, opOI, mov and opVex with a label, the immediate included. */
  lemma SseFilled(r: Legacy.Operand, m: Legacy.Memory, ty: Legacy.Type, code: u8, imm: Option<u8>, at0: int, at: int, auto: bool, labels: Labels)
    requires m.e.named.Some? && Legacy.Fits(Legacy.InMemory(m)) && Resolved(m.e, labels)
    requires Legacy.OpSSE(r, Legacy.InMemory(m), ty, code, imm, at0, auto, map[]).Some?
    ensures var n := if imm.Some? then 1 else 0; var bs := Legacy.OpSSE(r, Legacy.InMemory(m), ty, code, imm, at0, auto, map[]).value;
      && |bs| >= n + 4
      && var d := Distance(m.e, at + |bs|, labels);
         DispFits(d) ==> Legacy.OpSSE(r, Legacy.InMemory(m), ty, code, imm, at, auto, labels) == Some(Filled(bs, d, n))
  {
    hide Legacy.OpMR, DispFits, Distance, Filled, Legacy.Fits;
    LabelFits(m);
    var tail := if imm.Some? then [imm.value] else [];
    MemoryFilled(m, r, ty, code, |tail|, at0, at, auto, labels);
    var b := Legacy.OpMR(m, r, ty, code, |tail|, at0, auto, map[]).value;
    assert Legacy.OpSSE(r, Legacy.InMemory(m), ty, code, imm, at0, auto, map[]) == Some(b + tail);
    FillBefore(b, Distance(m.e, at + |b| + |tail|, labels), tail);
  }

  lemma ArithFilled(m: Legacy.Memory, imm: int, ext: int, at0: int, at: int, auto: bool, labels: Labels)
    requires m.e.named.Some? && Legacy.Fits(Legacy.InMemory(m)) && Resolved(m.e, labels) && 0 <= ext < 8
    requires Legacy.OpOI(Legacy.InMemory(m), imm, ext, at0, auto, map[]).Some?
    ensures var n := Legacy.ArithBytes(Legacy.InMemory(m), imm); var bs := Legacy.OpOI(Legacy.InMemory(m), imm, ext, at0, auto, map[]).value;
      && |bs| >= n + 4
      && var d := Distance(m.e, at + |bs|, labels);
         DispFits(d) ==> Legacy.OpOI(Legacy.InMemory(m), imm, ext, at, auto, labels) == Some(Filled(bs, d, n))
  {
    hide Legacy.OpMR, DispFits, Distance, Filled, Legacy.Fits, Legacy.ImmBit, LE, Legacy.GroupCode;
    LabelFits(m);
    var n := Legacy.ImmBit(Legacy.InMemory(m), imm).value;
    var r, tail := Legacy.Operand(Legacy.Gpr, ext, m.bit, false, false), LE(imm, n / 8);
    var code := Legacy.GroupCode(m.bit, n);
    MemoryFilled(m, r, Legacy.NO_TYPE, code, n / 8, at0, at, auto, labels);
    var b := Legacy.OpMR(m, r, Legacy.NO_TYPE, code, n / 8, at0, auto, map[]).value;
    assert Legacy.OpOI(Legacy.InMemory(m), imm, ext, at0, auto, map[]) == Some(b + tail);
    FillBefore(b, Distance(m.e, at + |b| + |tail|, labels), tail);
  }

  lemma MoveFilled(m: Legacy.Memory, imm: int, at0: int, at: int, auto: bool, labels: Labels)
    requires m.e.named.Some? && Legacy.Fits(Legacy.InMemory(m)) && Resolved(m.e, labels)
    requires Legacy.MovImm(Legacy.InMemory(m), imm, at0, auto, map[]).Some?
    ensures var n := Legacy.MovBytes(Legacy.InMemory(m), imm); var bs := Legacy.MovImm(Legacy.InMemory(m), imm, at0, auto, map[]).value;
      && |bs| >= n + 4
      && var d := Distance(m.e, at + |bs|, labels);
         DispFits(d) ==> Legacy.MovImm(Legacy.InMemory(m), imm, at, auto, labels) == Some(Filled(bs, d, n))
  {
    hide Legacy.OpMR, DispFits, Distance, Filled, Legacy.Fits, Legacy.MovSize, LE;
    LabelFits(m);
    var n := Legacy.MovSize(m.bit, imm).value;
    var r, tail := Legacy.Operand(Legacy.Gpr, 0, m.bit, false, false), LE(imm % W32, n);
    MemoryFilled(m, r, Legacy.NO_TYPE, 0xC6, n, at0, at, auto, labels);
    var b := Legacy.OpMR(m, r, Legacy.NO_TYPE, 0xC6, n, at0, auto, map[]).value;
    assert Legacy.MovImm(Legacy.InMemory(m), imm, at0, auto, map[]) == Some(b + tail);
    FillBefore(b, Distance(m.e, at + |b| + |tail|, labels), tail);
  }

  lemma VexFilled(r: Prefixes.Operand, v: Option<Prefixes.Operand>, m: Prefixes.Memory, ty: Prefixes.Type, code: u8, imm: Option<u8>,
                  at0: int, at: int, auto: bool, labels: Labels)
    requires Prefixes.Fits(r, v, Prefixes.InMemory(m)) && m.e.named.Some? && Resolved(m.e, labels)
    requires Prefixes.OpVex(r, v, Prefixes.InMemory(m), ty, code, imm, at0, auto, map[]).Some?
    ensures var n := if imm.Some? then 1 else 0; var bs := Prefixes.OpVex(r, v, Prefixes.InMemory(m), ty, code, imm, at0, auto, map[]).value;
      && |bs| >= n + 4
      && var d := Distance(m.e, at + |bs|, labels);
         DispFits(d) ==> Prefixes.OpVex(r, v, Prefixes.InMemory(m), ty, code, imm, at, auto, labels) == Some(Filled(bs, d, n))
  {
    hide Prefixes.MemoryPrefix, Prefixes.Override, DispFits, Distance, Filled, LE, ModRM;
    var tail := if imm.Some? then [imm.value] else [];
    var p := Prefixes.MemoryPrefix(r, v, m, ty, code).value;
    var head := Prefixes.Override(m.e) + p.0;
    var bs := head + ([ModRM(0, r.idx, 5)] + LE(0, 4)) + tail;
    LabelIsFilled(m.e, r.idx, p.1, ty.vsib, at0 + |head|, |tail|, auto, labels);
    LabelIsFilled(m.e, r.idx, p.1, ty.vsib, at + |head|, |tail|, auto, labels);
    FillEnd(head, ModRM(0, r.idx, 5), Distance(m.e, at + |bs|, labels), tail);
  }

  /** The decoded operand, counted from the next instruction, is the label plus what was added to it. */
  predicate LeadsTo(p: Place, next: int, e: RegExp, labels: Labels)
    requires e.named.Some?
  {
    && p.relative && p.base.None? && p.index.None? && e.named.value in labels
    && next + p.disp == labels[e.named.value] + SignedDisp(e.disp)
  }

  /** Where an instruction stands in finished code, and the addresses of all labels. */
  ghost predicate Stands(pre: seq<Op>, calls: seq<Op>, post: seq<Op>, base: nat, defaultNear: bool, off: nat, labels: Labels) {
    var p, all := Layout(pre, base, defaultNear), Layout(pre + calls + post, base, defaultNear);
    p.Some? && all.Some? && off == p.value.size && labels == Addresses(all.value.defs, base)
  }

  lemma PlaceLeads(e: RegExp, reg: int, next: int, labels: Labels)
    requires e.named.Some? && e.rip && Resolved(e, labels)
    requires next + SignedDisp(Distance(e, next, labels)) == labels[e.named.value] + SignedDisp(e.disp)
    ensures LeadsTo(Prefixes.PlaceFor(e, reg, next, labels), next, e, labels)
  {}

  lemma LabelIsRip(e: RegExp)
    requires Encodable(e) && Placeable(e) && e.named.Some?
    ensures e.rip && e.index == NONE && 0 <= e.disp < W64
  {}

  /** opSSE with [rip + label + n] and an immediate or none: the finished bytes decode to an operand that leads to the
      label plus n, counted from behind the immediate. */
  lemma SseReaches(r: Legacy.Operand, m: Legacy.Memory, ty: Legacy.Type, code: u8, imm: Option<u8>, at0: int, auto: bool, bs: seq<u8>,
                   pre: seq<Op>, post: seq<Op>, base: nat, defaultNear: bool, buf: seq<u8>) returns (off: nat, labels: Labels)
    requires m.e.named.Some? && Legacy.Fits(Legacy.InMemory(m)) && r.Valid() && !Legacy.ByteRegister(r)
    requires Legacy.Proper(ty, Legacy.SizedOpcode(ty, r.bit, code))
    requires Legacy.OpSSE(r, Legacy.InMemory(m), ty, code, imm, at0, auto, map[]) == Some(bs)
    requires Finished(pre + InsnCalls(bs, m.e, if imm.Some? then 1 else 0) + post, base, defaultNear, buf)
    ensures Stands(pre, InsnCalls(bs, m.e, if imm.Some? then 1 else 0), post, base, defaultNear, off, labels) && off + |bs| <= |buf|
    ensures var d := Legacy.Decode(buf[off..off + |bs|], false, false, if imm.Some? then 1 else 0);
      && d.Some? && d.value.rm.At? && LeadsTo(d.value.rm.place, base + off + |bs|, m.e, labels)
      && d.value.imm == (if imm.Some? then [imm.value] else [])
  {
    hide Finished, Legacy.OpSSE, Legacy.Decode, Legacy.Meant, DispFits, Distance, Filled, InsnCalls, LeadsTo, Prefixes.PlaceFor, Layout,
      Legacy.Proper, Legacy.SizedOpcode, Encodable;
    var n := if imm.Some? then 1 else 0;
    LabelIsRip(m.e);
    SseFilled(r, m, ty, code, imm, at0, at0, auto, map[m.e.named.value := 0]);
    off, labels := InsnIsFilled(pre, bs, m.e, n, post, base, defaultNear, buf);
    SseFilled(r, m, ty, code, imm, at0, base + off, auto, labels);
    Legacy.SseDecodes(r, Legacy.InMemory(m), ty, code, imm, base + off, auto, labels);
    PlaceLeads(m.e, r.idx, base + off + |bs|, labels);
    MeantShows(r, ty, m.bit, Width(m.e) == 32, r.Wide(), code, false, Legacy.At(Prefixes.PlaceFor(m.e, r.idx, base + off + |bs|, labels)), if imm.Some? then [imm.value] else []);
  }

  lemma MeantShows(r: Legacy.Operand, ty: Legacy.Type, otherBit: int, a67: bool, w: bool, code: u8, digit: bool, rm: Legacy.Where, imm: seq<u8>)
    ensures var d := Legacy.Meant(r, ty, otherBit, a67, w, code, digit, rm, imm); d.rm == rm && d.imm == imm
  {}

  /** The same for opOI, whose immediate has one, two or four bytes. */
  lemma ArithReaches(m: Legacy.Memory, imm: int, ext: int, at0: int, auto: bool, bs: seq<u8>, pre: seq<Op>, post: seq<Op>, base: nat,
                     defaultNear: bool, buf: seq<u8>) returns (off: nat, labels: Labels)
    requires m.e.named.Some? && Legacy.Fits(Legacy.InMemory(m)) && Legacy.Sized(Legacy.InMemory(m)) && 0 <= imm < W32 && 0 <= ext < 8
    requires Legacy.OpOI(Legacy.InMemory(m), imm, ext, at0, auto, map[]) == Some(bs)
    requires Finished(pre + InsnCalls(bs, m.e, Legacy.ArithBytes(Legacy.InMemory(m), imm)) + post, base, defaultNear, buf)
    ensures Stands(pre, InsnCalls(bs, m.e, Legacy.ArithBytes(Legacy.InMemory(m), imm)), post, base, defaultNear, off, labels)
    ensures off + |bs| <= |buf|
    ensures var d := Legacy.DecodeArith(buf[off..off + |bs|]);
      && d.Some? && d.value.ext == Legacy.Low(ext) && d.value.size == m.bit && Legacy.Represents(d.value.value, imm, m.bit)
      && d.value.target.At? && LeadsTo(d.value.target.place, base + off + |bs|, m.e, labels)
  {
    hide Finished, Legacy.OpOI, Legacy.DecodeArith, Legacy.ArithBytes, Legacy.Represents, DispFits, Distance, Filled, InsnCalls, LeadsTo,
      Prefixes.PlaceFor, Layout, Encodable;
    LabelIsRip(m.e);
    ArithFilled(m, imm, ext, at0, at0, auto, map[m.e.named.value := 0]);
    off, labels := InsnIsFilled(pre, bs, m.e, Legacy.ArithBytes(Legacy.InMemory(m), imm), post, base, defaultNear, buf);
    ArithFilled(m, imm, ext, at0, base + off, auto, labels);
    Legacy.ArithDecodes(Legacy.InMemory(m), imm, ext, base + off, auto, labels);
    PlaceLeads(m.e, ext, base + off + |bs|, labels);
  }

  /** The same for mov with an immediate. */
  lemma MoveReaches(m: Legacy.Memory, imm: int, at0: int, auto: bool, bs: seq<u8>, pre: seq<Op>, post: seq<Op>, base: nat,
                    defaultNear: bool, buf: seq<u8>, w: int) returns (off: nat, labels: Labels)
    requires m.e.named.Some? && Legacy.Fits(Legacy.InMemory(m)) && Legacy.Sized(Legacy.InMemory(m)) && 0 <= imm < W64
    requires Legacy.MovImm(Legacy.InMemory(m), imm, at0, auto, map[]) == Some(bs)
    requires Finished(pre + InsnCalls(bs, m.e, Legacy.MovBytes(Legacy.InMemory(m), imm)) + post, base, defaultNear, buf)
    ensures Stands(pre, InsnCalls(bs, m.e, Legacy.MovBytes(Legacy.InMemory(m), imm)), post, base, defaultNear, off, labels)
    ensures off + |bs| <= |buf|
    ensures var d := Legacy.DecodeMove(buf[off..off + |bs|]);
      && d.Some? && Legacy.Result(d.value.size, d.value.value, w) == Legacy.Result(m.bit, imm, w)
      && d.value.target.At? && LeadsTo(d.value.target.place, base + off + |bs|, m.e, labels)
  {
    hide Finished, Legacy.MovImm, Legacy.DecodeMove, Legacy.MovBytes, Legacy.Result, DispFits, Distance, Filled, InsnCalls, LeadsTo,
      Prefixes.PlaceFor, Layout, Encodable;
    LabelIsRip(m.e);
    MoveFilled(m, imm, at0, at0, auto, map[m.e.named.value := 0]);
    off, labels := InsnIsFilled(pre, bs, m.e, Legacy.MovBytes(Legacy.InMemory(m), imm), post, base, defaultNear, buf);
    MoveFilled(m, imm, at0, base + off, auto, labels);
    Legacy.MoveDecodes(Legacy.InMemory(m), imm, base + off, auto, labels, w);
    PlaceLeads(m.e, 0, base + off + |bs|, labels);
  }

  /** The same for opVex, with all that the operands ask for. */
  lemma VexReaches(r: Prefixes.Operand, v: Option<Prefixes.Operand>, m: Prefixes.Memory, ty: Prefixes.Type, code: u8, imm: Option<u8>,
                   at0: int, auto: bool, bs: seq<u8>, pre: seq<Op>, post: seq<Op>, base: nat, defaultNear: bool, buf: seq<u8>)
      returns (off: nat, labels: Labels)
    requires Prefixes.Fits(r, v, Prefixes.InMemory(m)) && m.e.named.Some? && Prefixes.OneMap(ty) && Meanings.Lossless(r, v, m, ty)
    requires Prefixes.OpVex(r, v, Prefixes.InMemory(m), ty, code, imm, at0, auto, map[]) == Some(bs)
    requires Finished(pre + InsnCalls(bs, m.e, if imm.Some? then 1 else 0) + post, base, defaultNear, buf)
    ensures Stands(pre, InsnCalls(bs, m.e, if imm.Some? then 1 else 0), post, base, defaultNear, off, labels) && off + |bs| <= |buf|
    ensures var place := Prefixes.PlaceFor(m.e, r.idx, base + off + |bs|, labels);
      && LeadsTo(place, base + off + |bs|, m.e, labels)
      && Meanings.DecodesAsMeant(r, v, m, ty, code, imm, buf[off..off + |bs|], Prefixes.At(place, IsVsib(m.e)))
  {
    hide Finished, Prefixes.OpVex, Meanings.DecodesAsMeant, Meanings.Lossless, DispFits, Distance, Filled, InsnCalls, LeadsTo,
      Prefixes.PlaceFor, Layout, Encodable, Prefixes.OneMap, IsVsib;
    var n := if imm.Some? then 1 else 0;
    LabelIsRip(m.e);
    VexFilled(r, v, m, ty, code, imm, at0, at0, auto, map[m.e.named.value := 0]);
    off, labels := InsnIsFilled(pre, bs, m.e, n, post, base, defaultNear, buf);
    VexFilled(r, v, m, ty, code, imm, at0, base + off, auto, labels);
    Meanings.MemoryFormDecodes(r, v, m, ty, code, imm, base + off, auto, labels);
    PlaceLeads(m.e, r.idx, base + off + |bs|, labels);
  }

  /** What the emitters record for a label is the call that InsnCalls makes of it: same label, same place, and the same
      addend modulo 2^64. */
  lemma FixupIsCall(e: RegExp, bs: seq<u8>, immSize: nat)
    requires e.named.Some? && |bs| >= immSize + 4
    ensures var f, k := Fixups(e, |bs| - immSize, immSize, map[]), |bs| - immSize - 4;
      && |f| == 1 && f[0].end == k + 4
      && InsnCalls(bs, e, immSize)[k].PutRel? && InsnCalls(bs, e, immSize)[k].id == f[0].id
      && Wrap(InsnCalls(bs, e, immSize)[k].disp) == f[0].disp
  {
    var d := if SignedDisp(e.disp) == e.disp then 0 else -1;
    assert SignedDisp(e.disp) - immSize == e.disp - immSize + d * W64;
    WrapMultiple(e.disp - immSize, d);
  }
}
