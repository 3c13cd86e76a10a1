/** The main results about the one-pass engine: it is a two-pass assembler, AutoGrow is the fixed buffer at
    the final address, and every finished field leads where its label is. */
module Refinement {
  import Arith
  import opened Bytes
  import opened Assembler
  import opened TwoPass

  /** A whole session of the engine: the calls, then ready(). */
  function Assemble(s: State, alloc: Allocator, ops: seq<Op>): Option<seq<u8>>
    requires Valid(s)
  {
    var t :- Run(s, alloc, ops);
    var r :- Ready(t);
    Some(r.buf)
  }

  /** The two-pass assembler for a fixed buffer: lay everything out, then write it with the full table. */
  function TwoPasses(ops: seq<Op>, base: nat, maxSize: nat, defaultNear: bool): Option<seq<u8>> {
    var p :- Layout(ops, base, defaultNear);
    if p.size <= maxSize && Complete(p) && AllFit(p.pieces, p.defs) && AllAccepted(p.pieces, base)
    then Some(Render(p.pieces, p.defs, base)) else None
  }

  lemma {:induction false} CompleteIsResolved(ps: seq<Piece>, table: map<nat, nat>, auto: bool)
    ensures Unresolved(ps, table, auto) == [] <==> forall i :: 0 <= i < |ps| ==> ps[i].Known(table)
    decreases |ps|
  {
    if ps != [] {
      var init := ps[..|ps| - 1];
      CompleteIsResolved(init, table, auto);
      assert forall i :: 0 <= i < |init| ==> init[i] == ps[i];
    }
  }

  /** One-pass back-patching produces exactly the bytes of a two-pass assembler, and refuses exactly what it
      refuses, for every sequence of calls into a fixed buffer of at most 2 GiB. */
  lemma OnePassIsTwoPass(base: nat, maxSize: nat, defaultNear: bool, alloc: Allocator, ops: seq<Op>, targets: set<nat>)
    requires maxSize <= LIMIT && PageAlloc(alloc) && AllSane(false, ops, targets)
    ensures Assemble(Fresh(false, defaultNear, base, maxSize), alloc, ops) == TwoPasses(ops, base, maxSize, defaultNear)
  {
    hide Render, Placed, Applied;
    var s := Fresh(false, defaultNear, base, maxSize);
    RunAgrees(s, base, alloc, ops, targets);
    var t, p := Run(s, alloc, ops), Layout(ops, base, defaultNear);
    if p.Some? { CompleteIsResolved(p.value.pieces, p.value.defs, false); }
    if t.Some? { AppliedNone(t.value.buf, base); }
  }

  /** What an AutoGrow session that ends below 2 GiB produces: the rendered plan at the final address. */
  lemma AutoGrowResult(base0: nat, maxSize: nat, defaultNear: bool, alloc: Allocator, ops: seq<Op>, targets: set<nat>)
    requires base0 % PAGE == 0 && PageAlloc(alloc) && AllSane(true, ops, targets)
    ensures var s := Fresh(true, defaultNear, base0, maxSize);
      var t := Run(s, alloc, ops);
      t.Some? && |t.value.buf| <= LIMIT ==>
        var base := t.value.base;
        var p := Layout(ops, base, defaultNear);
        && p.Some? && p.value.size == |t.value.buf| && AllFit(p.value.pieces, p.value.defs)
        && Assemble(s, alloc, ops) == if Complete(p.value) && AllFarFit(p.value.pieces, base)
                                      then Some(Render(p.value.pieces, p.value.defs, base)) else None
  {
    hide Render, Placed, Applied, AllFit, AllFarFit, PatchFits;
    var s := Fresh(true, defaultNear, base0, maxSize);
    var t := Run(s, alloc, ops);
    RunAgrees(s, base0, alloc, ops, targets);
    if t.Some? && |t.value.buf| <= LIMIT {
      var base := t.value.base;
      assert base % PAGE == 0;
      RunAgrees(s, base, alloc, ops, targets);
      var p := Layout(ops, base, defaultNear).value;
      CompleteIsResolved(p.pieces, p.defs, true);
    }
  }

  /** No absolute jump goes to one of the few addresses at the end of the 32-bit range where counting from the
      start and from the end of the instruction differ. */
  predicate NoEdge(ps: seq<Piece>, base: nat) {
    forall i :: 0 <= i < |ps| ==> (ps[i].Accepted(base) <==> ps[i].FarFits(base))
  }

  /** Growing any number of times and then calling ready() gives the bytes of a fixed buffer at the final
      address; and, but for absolute jumps at the edge of the range, one session succeeds when the other does. */
  lemma AutoGrowIsFixed(base0: nat, maxSize: nat, fixedSize: nat, defaultNear: bool, alloc: Allocator, ops: seq<Op>, targets: set<nat>)
    requires base0 % PAGE == 0 && PageAlloc(alloc) && fixedSize <= LIMIT
    requires AllSane(true, ops, targets) && AllSane(false, ops, targets)
    ensures var s := Fresh(true, defaultNear, base0, maxSize);
      var t := Run(s, alloc, ops);
      t.Some? && |t.value.buf| <= fixedSize ==>
        var grown, fixed := Assemble(s, alloc, ops), Assemble(Fresh(false, defaultNear, t.value.base, fixedSize), alloc, ops);
        var p := Layout(ops, t.value.base, defaultNear);
        && (grown.Some? && fixed.Some? ==> grown == fixed)
        && p.Some? && (NoEdge(p.value.pieces, t.value.base) ==> grown == fixed)
  {
    hide Render, Layout, AllFit, Run, Ready;
    var s := Fresh(true, defaultNear, base0, maxSize);
    var t := Run(s, alloc, ops);
    AutoGrowResult(base0, maxSize, defaultNear, alloc, ops, targets);
    if t.Some? && |t.value.buf| <= fixedSize {
      OnePassIsTwoPass(t.value.base, fixedSize, defaultNear, alloc, ops, targets);
      var ps := Layout(ops, t.value.base, defaultNear).value.pieces;
      if NoEdge(ps, t.value.base) {
        assert AllAccepted(ps, t.value.base) <==> AllFarFit(ps, t.value.base);
      }
    }
  }

  /** A finished field holds the distance to its label, or the label's address. */
  predicate Leads(buf: seq<u8>, q: Piece, table: map<nat, nat>, base: nat)
    requires q.Known(table)
  {
    match q
    case Raw(_) => true
    case Rel(_, id, end, n, disp) => n <= end <= |buf| && Signed(buf[end - n..end]) + end == table[id] + disp
    case AbsLabel(id, end) => 8 <= end <= |buf| && (base + table[id] < Range(8) ==> Unsigned(buf[end - 8..end]) == base + table[id])
    case AbsJump(_, addr, _, end, n) =>
      n <= end <= |buf| && (q.FarFits(base) <==> Signed(buf[end - n..end]) + base + end == addr)
  }

  lemma RenderSlice(ps: seq<Piece>, i: nat, size: nat, table: map<nat, nat>, base: nat)
    requires i < |ps| && Placed(ps, size)
    ensures var off, n := |Render(ps[..i], table, base)|, ps[i].Size();
      && off + n <= |Render(ps, table, base)|
      && Render(ps, table, base)[off..off + n] == ps[i].Content(table, base)
      && (!ps[i].Raw? ==> ps[i].end == off + n) && (ps[i].Rel? || ps[i].AbsJump? ==> ps[i].size == 1 || ps[i].size == 4)
  {
    hide Piece.Content, Piece.Size;
    var a, q, b := ps[..i], ps[i], ps[i + 1..];
    assert a + [q] + b == ps;
    RenderConcat(a + [q], b, table, base, false);
    RenderConcat(a, [q], table, base, false);
    RenderOne(q, table, base, false);
    PlacedPrefix(a + [q], b, size, table, base);
    assert (a + [q])[..|a|] == a;
  }

  lemma ContentLeads(q: Piece, table: map<nat, nat>, base: nat, buf: seq<u8>, off: nat)
    requires q.Known(table) && q.Fits(table) && off + q.Size() <= |buf| && buf[off..off + q.Size()] == q.Content(table, base)
    requires (!q.Raw? ==> q.end == off + q.Size()) && (q.Rel? || q.AbsJump? ==> q.size == 1 || q.size == 4)
    ensures Leads(buf, q, table, base)
  {
    hide LE, Signed;
    RangeIs();
    if !q.Raw? {
      var h := if q.Rel? || q.AbsJump? then q.head else [];
      var n := q.Size() - |h|;
      var v := q.Value(table, base);
      assert q.Content(table, base) == h + LE(v, n);
      assert buf[off..off + q.Size()][|h|..] == buf[q.end - n..q.end];
      assert (h + LE(v, n))[|h|..] == LE(v, n);
      if FitsSigned(v, n) { SignedLE(v, n); }
      if q.AbsLabel? && v < Range(8) { UnsignedLE(v, 8); }
      if q.AbsJump? && !q.FarFits(base) { SignedInRange(LE(v, n)); }
    }
  }

  /** A short absolute jump is placed only where it reaches. */
  lemma {:induction false} ShortJumpsReach(ops: seq<Op>, base: nat, defaultNear: bool)
    ensures var p := Layout(ops, base, defaultNear);
      p.Some? ==> forall i :: 0 <= i < |p.value.pieces| ==>
        p.value.pieces[i].AbsJump? && p.value.pieces[i].size == 1 ==> p.value.pieces[i].FarFits(base)
    decreases |ops|
  {
    if ops != [] {
      ShortJumpsReach(ops[..|ops| - 1], base, defaultNear);
      var p := Layout(ops[..|ops| - 1], base, defaultNear);
      if p.Some? { PlaceReaches(p.value, ops[|ops| - 1], base, defaultNear); }
      hide Place;
    }
  }

  lemma PlaceReaches(p: Plan, op: Op, base: nat, defaultNear: bool)
    requires forall i :: 0 <= i < |p.pieces| ==> p.pieces[i].AbsJump? && p.pieces[i].size == 1 ==> p.pieces[i].FarFits(base)
    ensures var q := Place(p, op, base, defaultNear);
      q.Some? ==> forall i :: 0 <= i < |q.value.pieces| ==>
        q.value.pieces[i].AbsJump? && q.value.pieces[i].size == 1 ==> q.value.pieces[i].FarFits(base)
  {
    hide PowerOfTwo, Nops, LE, Padding;
    PlaceFollows(p, op, base, defaultNear);
    if op.JumpAbs? {
      var d := op.addr - (base + p.size + 2);
      assert AbsJump([op.form.shortCode], op.addr, p.size, p.size + 2, 1).FarFits(base) <==> InInt8(d);
    }
  }

  /** buf is the finished code of the calls at base, whichever kind of buffer they went to. */
  ghost predicate Rendered(ops: seq<Op>, base: nat, defaultNear: bool, buf: seq<u8>) {
    var p := Layout(ops, base, defaultNear);
    p.Some? && Complete(p.value) && AllFit(p.value.pieces, p.value.defs) && buf == Render(p.value.pieces, p.value.defs, base)
  }

  /** Bytes of a jump: its one-byte code and a distance of one byte, or its prefix, if it has one, its four-byte code and
      a distance of four. */
  predicate JumpCoded(bs: seq<u8>, f: Form) {
    || (|bs| == 2 && !f.kind.Near? && bs[0] == f.shortCode)
    || (!f.kind.Short? && f.longPref == 0 && |bs| == 5 && bs[0] == f.longCode)
    || (!f.kind.Short? && f.longPref != 0 && |bs| == 6 && bs[0] == f.longPref && bs[1] == f.longCode)
  }

  /** The distance it holds. */
  function JumpDistance(bs: seq<u8>): int
    requires |bs| in {2, 5, 6}
  {
    Signed(bs[if |bs| == 2 then 1 else |bs| - 4..])
  }

  /** What a call that began at start has left in the finished bytes bs, up to end: a label is where L was called, and
      every reference leads to its label. */
  predicate CallIsDone(op: Op, bs: seq<u8>, start: nat, end: nat, defs: map<nat, nat>, base: nat) {
    match op
    case Db(b) => bs == [b]
    case Define(id) => bs == [] && id in defs && defs[id] == start
    case Assign(dst, src) => bs == [] && dst in defs && src in defs && defs[dst] == defs[src]
    case Jump(id, f) => JumpCoded(bs, f) && id in defs && JumpDistance(bs) + end == defs[id]
    case PutRel(id, disp) => |bs| == 4 && id in defs && Signed(bs) + end == defs[id] + disp
    case PutAbs(id) => |bs| == 8 && id in defs && (base + defs[id] < Range(8) ==> Unsigned(bs) == base + defs[id])
    case JumpAbs(addr, f) =>
      JumpCoded(bs, f) && (JumpDistance(bs) + base + end == addr <==> |bs| == 2 || InInt32(addr - (base + end)))
    case Align(x, _) => x > 0 && |bs| < x && (base + end) % x == 0
  }

  /** Call k, in the finished code of all calls. */
  ghost predicate CallHolds(ops: seq<Op>, k: nat, base: nat, defaultNear: bool, buf: seq<u8>)
    requires k < |ops|
  {
    var p, a, b := Layout(ops, base, defaultNear), Layout(ops[..k], base, defaultNear), Layout(ops[..k + 1], base, defaultNear);
    && p.Some? && a.Some? && b.Some? && a.value.size <= b.value.size <= |buf|
    && CallIsDone(ops[k], buf[a.value.size..b.value.size], a.value.size, b.value.size, p.value.defs, base)
  }

  /** Every displacement field of a finished program decodes to its label, every 8-byte field to its address, and every
      call has left the bytes it is for. */
  lemma EveryFieldLeads(base: nat, defaultNear: bool, ops: seq<Op>, buf: seq<u8>)
    requires Rendered(ops, base, defaultNear, buf)
    ensures var p := Layout(ops, base, defaultNear).value;
      forall i :: 0 <= i < |p.pieces| ==>
        && p.pieces[i].Known(p.defs) && Leads(buf, p.pieces[i], p.defs, base)
        && (p.pieces[i].AbsJump? && p.pieces[i].size == 1 ==> p.pieces[i].FarFits(base))
    ensures forall k :: 0 <= k < |ops| ==> CallHolds(ops, k, base, defaultNear, buf)
  {
    hide *;
    PiecesLead(base, defaultNear, ops, buf);
    forall k | 0 <= k < |ops|
      ensures CallHolds(ops, k, base, defaultNear, buf)
    {
      EveryCallIsDone(base, defaultNear, ops, buf, k);
    }
  }

  lemma PiecesLead(base: nat, defaultNear: bool, ops: seq<Op>, buf: seq<u8>)
    requires Rendered(ops, base, defaultNear, buf)
    ensures Layout(ops, base, defaultNear).Some?
    ensures var p := Layout(ops, base, defaultNear).value;
      forall i :: 0 <= i < |p.pieces| ==>
        && p.pieces[i].Known(p.defs) && Leads(buf, p.pieces[i], p.defs, base)
        && (p.pieces[i].AbsJump? && p.pieces[i].size == 1 ==> p.pieces[i].FarFits(base))
  {
    ShortJumpsReach(ops, base, defaultNear);
    hide Render, Piece.Content, Leads;
    var p := Layout(ops, base, defaultNear).value;
    LayoutPlaced(ops, base, defaultNear);
    forall i | 0 <= i < |p.pieces| ensures p.pieces[i].Known(p.defs) && Leads(buf, p.pieces[i], p.defs, base) {
      RenderSlice(p.pieces, i, p.size, p.defs, base);
      ContentLeads(p.pieces[i], p.defs, base, buf, |Render(p.pieces[..i], p.defs, base)|);
    }
  }

  lemma EveryCallIsDone(base: nat, defaultNear: bool, ops: seq<Op>, buf: seq<u8>, k: nat)
    requires Rendered(ops, base, defaultNear, buf) && k < |ops|
    ensures CallHolds(ops, k, base, defaultNear, buf)
  {
    hide Layout, Place, Render, CallIsDone, AllFit, Complete;
    CallSlice(base, defaultNear, ops, buf, k);
    DefsGrow(ops, k + 1, base, defaultNear);
    var a, b := Layout(ops[..k], base, defaultNear).value, Layout(ops[..k + 1], base, defaultNear).value;
    PlacedDone(a, ops[k], base, defaultNear, Layout(ops, base, defaultNear).value.defs, buf[a.size..b.size]);
  }

  /** The bytes of one call: those of the piece it placed, if it placed one. */
  lemma CallSlice(base: nat, defaultNear: bool, ops: seq<Op>, buf: seq<u8>, k: nat)
    requires Rendered(ops, base, defaultNear, buf) && k < |ops|
    ensures Layout(ops[..k], base, defaultNear).Some?
    ensures var a, b := Layout(ops[..k], base, defaultNear).value, Layout(ops[..k + 1], base, defaultNear);
      var p := Layout(ops, base, defaultNear).value;
      && b == Place(a, ops[k], base, defaultNear) && b.Some? && a.size <= b.value.size <= |buf|
      && (if b.value.pieces == a.pieces then b.value.size == a.size
          else
            && |b.value.pieces| == |a.pieces| + 1
            && var q := b.value.pieces[|a.pieces|];
              q.Known(p.defs) && q.Fits(p.defs) && buf[a.size..b.value.size] == q.Content(p.defs, base))
  {
    hide Place, Render, Piece.Content, Piece.Fits, Piece.Known, Piece.Size, Placed;
    assert ops[..k + 1][..k] == ops[..k];
    LayoutGrows(ops, k, base, defaultNear);
    LayoutGrows(ops, k + 1, base, defaultNear);
    var a, b, p := Layout(ops[..k], base, defaultNear).value, Layout(ops[..k + 1], base, defaultNear).value, Layout(ops, base, defaultNear).value;
    hide Layout;
    PlaceFollows(a, ops[k], base, defaultNear);
    LayoutPlaced(ops, base, defaultNear);
    LayoutPlaced(ops[..k], base, defaultNear);
    LayoutPlaced(ops[..k + 1], base, defaultNear);
    RenderedSize(p.pieces, p.size, p.defs, base);
    RenderedSize(b.pieces, b.size, p.defs, base);
    RenderedSize(a.pieces, a.size, p.defs, base);
    RenderConcat(b.pieces, p.pieces[|b.pieces|..], p.defs, base, false);
    assert b.pieces + p.pieces[|b.pieces|..] == p.pieces;
    if b.pieces != a.pieces {
      var i := |a.pieces|;
      RenderSlice(p.pieces, i, p.size, p.defs, base);
      assert p.pieces[..i] == a.pieces && p.pieces[i] == b.pieces[i];
    }
  }

  lemma RenderedSize(ps: seq<Piece>, size: nat, table: map<nat, nat>, base: nat)
    requires Placed(ps, size)
    ensures |Render(ps, table, base)| == size
  {
    hide Render, Placed;
    assert ps + [] == ps;
    PlacedPrefix(ps, [], size, table, base);
  }

  /** Later calls leave the labels where they are. */
  lemma {:induction false} DefsGrow(ops: seq<Op>, k: nat, base: nat, defaultNear: bool)
    requires k <= |ops| && Layout(ops, base, defaultNear).Some?
    ensures Layout(ops[..k], base, defaultNear).Some?
    ensures var a, p := Layout(ops[..k], base, defaultNear).value, Layout(ops, base, defaultNear).value;
      forall id :: id in a.defs ==> id in p.defs && p.defs[id] == a.defs[id]
    decreases |ops|
  {
    hide Place;
    if k == |ops| { assert ops[..k] == ops; }
    else {
      var init := ops[..|ops| - 1];
      assert init[..k] == ops[..k];
      DefsGrow(init, k, base, defaultNear);
      PlaceDefs(Layout(init, base, defaultNear).value, ops[|ops| - 1], base, defaultNear);
    }
  }

  lemma PlaceDefs(p: Plan, op: Op, base: nat, defaultNear: bool)
    ensures var q := Place(p, op, base, defaultNear);
      q.Some? ==> forall id :: id in p.defs ==> id in q.value.defs && q.value.defs[id] == p.defs[id]
  {
    hide PowerOfTwo, Nops, Padding;
  }

  /** What the field of a piece holds. */
  lemma FieldReads(q: Piece, defs: map<nat, nat>, base: nat, bs: seq<u8>)
    requires q.Known(defs) && q.Fits(defs) && bs == q.Content(defs, base)
    ensures q.Rel? && q.size in {1, 4} ==>
      |bs| == |q.head| + q.size && bs[..|q.head|] == q.head && Signed(bs[|q.head|..]) == defs[q.id] + q.disp - q.end
    ensures q.AbsJump? && q.size in {1, 4} ==>
      && |bs| == |q.head| + q.size && bs[..|q.head|] == q.head
      && (Signed(bs[|q.head|..]) == q.addr - (base + q.end) <==> q.FarFits(base))
    ensures q.AbsLabel? ==> |bs| == 8 && (base + defs[q.id] < Range(8) ==> Unsigned(bs) == base + defs[q.id])
  {
    hide LE, Signed;
    RangeIs();
    if !q.Raw? && (q.AbsLabel? || q.size in {1, 4}) {
      var h := if q.AbsLabel? then [] else q.head;
      var v, n := q.Value(defs, base), q.Size() - |h|;
      assert bs == h + LE(v, n) && bs[|h|..] == LE(v, n);
      if FitsSigned(v, n) { SignedLE(v, n); }
      if q.AbsLabel? && v < Range(8) { UnsignedLE(v, 8); }
      if q.AbsJump? && !q.FarFits(base) { SignedInRange(LE(v, n)); }
    }
  }

  lemma PlacedDone(a: Plan, op: Op, base: nat, defaultNear: bool, defs: map<nat, nat>, bs: seq<u8>)
    requires var b := Place(a, op, base, defaultNear);
      && b.Some? && a.size <= b.value.size && |bs| == b.value.size - a.size
      && (forall id :: id in b.value.defs ==> id in defs && defs[id] == b.value.defs[id])
      && (b.value.pieces != a.pieces ==>
        && |b.value.pieces| == |a.pieces| + 1
        && var q := b.value.pieces[|a.pieces|]; q.Known(defs) && q.Fits(defs) && bs == q.Content(defs, base))
    ensures CallIsDone(op, bs, a.size, Place(a, op, base, defaultNear).value.size, defs, base)
  {
    var b := Place(a, op, base, defaultNear).value;
    if b.pieces != a.pieces { FieldReads(b.pieces[|a.pieces|], defs, base, bs); }
    hide LE, Signed, Unsigned, Range;
    match op
    case Jump(id, f) => PlacedJump(a, op, base, defaultNear, defs, bs);
    case JumpAbs(addr, f) => PlacedJumpAbs(a, op, base, defaultNear, defs, bs);
    case Align(x, m) => hide PowerOfTwo, Nops; PaddingIs(base + a.size, x);
    case _ => hide PowerOfTwo, Nops, Padding;
  }

  /** The bytes of a jump whose piece has the head that its Form asks for. */
  lemma JumpBytes(f: Form, head: seq<u8>, n: nat, bs: seq<u8>)
    requires n in {1, 4} && |bs| == |head| + n && bs[..|head|] == head
    requires n == 1 ==> head == [f.shortCode] && !f.kind.Near?
    requires n == 4 ==> head == (if f.longPref == 0 then [f.longCode] else [f.longPref, f.longCode]) && !f.kind.Short?
    ensures JumpCoded(bs, f) && |bs| in {2, 5, 6} && (|bs| == 2 <==> n == 1)
    ensures bs[if |bs| == 2 then 1 else |bs| - 4..] == bs[|head|..]
  {
    assert forall i :: 0 <= i < |head| ==> bs[i] == bs[..|head|][i];
  }

  lemma PlacedJump(a: Plan, op: Op, base: nat, defaultNear: bool, defs: map<nat, nat>, bs: seq<u8>)
    requires op.Jump?
    requires var b := Place(a, op, base, defaultNear);
      && b.Some? && |b.value.pieces| == |a.pieces| + 1 && |bs| == b.value.size - a.size
      && var q := b.value.pieces[|a.pieces|]; q.Known(defs) && q.Fits(defs) && bs == q.Content(defs, base)
    ensures CallIsDone(op, bs, a.size, Place(a, op, base, defaultNear).value.size, defs, base)
  {
    var b := Place(a, op, base, defaultNear).value;
    var q, f := b.pieces[|a.pieces|], op.form;
    JumpPiece(a, op, base, defaultNear);
    FieldReads(q, defs, base, bs);
    hide LE, Signed, Piece.Content, Piece.Fits, Place, JumpCoded;
    JumpBytes(f, q.head, q.size, bs);
  }

  lemma PlacedJumpAbs(a: Plan, op: Op, base: nat, defaultNear: bool, defs: map<nat, nat>, bs: seq<u8>)
    requires op.JumpAbs?
    requires var b := Place(a, op, base, defaultNear);
      && b.Some? && |b.value.pieces| == |a.pieces| + 1 && |bs| == b.value.size - a.size
      && var q := b.value.pieces[|a.pieces|]; q.Known(defs) && q.Fits(defs) && bs == q.Content(defs, base)
    ensures CallIsDone(op, bs, a.size, Place(a, op, base, defaultNear).value.size, defs, base)
  {
    var b := Place(a, op, base, defaultNear).value;
    var q, f := b.pieces[|a.pieces|], op.form;
    JumpPiece(a, op, base, defaultNear);
    FieldReads(q, defs, base, bs);
    hide LE, Signed, Piece.Content, Piece.Fits, Piece.Known, Place, JumpCoded;
    JumpBytes(f, q.head, q.size, bs);
  }

  /** The piece of a jump. */
  lemma JumpPiece(a: Plan, op: Op, base: nat, defaultNear: bool)
    requires (op.Jump? || op.JumpAbs?) && Place(a, op, base, defaultNear).Some?
    ensures var b := Place(a, op, base, defaultNear).value;
      && |b.pieces| == |a.pieces| + 1
      && var q, f := b.pieces[|a.pieces|], op.form;
        && (if op.Jump? then q.Rel? && q.id == op.id && q.disp == 0 else q.AbsJump? && q.addr == op.addr)
        && q.size in {1, 4} && b.size == a.size + q.Size() == q.end
        && (q.size == 1 ==> q.head == [f.shortCode] && !f.kind.Near? && (q.AbsJump? ==> q.FarFits(base)))
        && (q.size == 4 ==> q.head == (if f.longPref == 0 then [f.longCode] else [f.longPref, f.longCode]) && !f.kind.Short?)
  {}

  lemma PaddingIs(pos: nat, x: nat)
    requires x > 0
    ensures Padding(pos, x) < x && (pos + Padding(pos, x)) % x == 0
  {
    if pos % x != 0 {
      var q := pos / x;
      assert pos + Padding(pos, x) == q * x + x == (q + 1) * x + 0;
      Arith.DivUnique((q + 1) * x, x, q + 1);
    }
  }

  /** Later calls leave what was placed. */
  lemma {:induction false} LayoutGrows(ops: seq<Op>, k: nat, base: nat, defaultNear: bool)
    requires k <= |ops| && Layout(ops, base, defaultNear).Some?
    ensures Layout(ops[..k], base, defaultNear).Some?
    ensures Layout(ops[..k], base, defaultNear).value.pieces <= Layout(ops, base, defaultNear).value.pieces
    decreases |ops|
  {
    hide Place;
    if k == |ops| { assert ops[..k] == ops; }
    else {
      var init := ops[..|ops| - 1];
      assert init[..k] == ops[..k];
      LayoutGrows(init, k, base, defaultNear);
      PlaceGrows(Layout(init, base, defaultNear).value, ops[|ops| - 1], base, defaultNear);
    }
  }

  lemma PlaceGrows(p: Plan, op: Op, base: nat, defaultNear: bool)
    ensures Place(p, op, base, defaultNear).Some? ==> p.pieces <= Place(p, op, base, defaultNear).value.pieces
  {
    hide PowerOfTwo, Nops, LE;
  }

  lemma {:induction false} LayoutPlaced(ops: seq<Op>, base: nat, defaultNear: bool)
    ensures var p := Layout(ops, base, defaultNear); p.Some? ==> Placed(p.value.pieces, p.value.size)
  {
    hide Place, Piece.Content, Piece.Size;
    if ops != [] {
      var init, op := ops[..|ops| - 1], ops[|ops| - 1];
      LayoutPlaced(init, base, defaultNear);
      var p := Layout(init, base, defaultNear);
      if p.Some? {
        PlaceFollows(p.value, op, base, defaultNear);
        var q := Place(p.value, op, base, defaultNear);
        if q.Some? && q.value.pieces != p.value.pieces { AddedRender(p.value, q.value.pieces[|p.value.pieces|], base, false); }
      }
    }
  }

  /** A call places at most one piece, right after the others. */
  lemma PlaceFollows(p: Plan, op: Op, base: nat, defaultNear: bool)
    ensures var q := Place(p, op, base, defaultNear);
      q.Some? && q.value.pieces != p.pieces ==>
        |q.value.pieces| == |p.pieces| + 1 && Follows(p, q.value.pieces[|p.pieces|])
        && q.value == p.Add(q.value.pieces[|p.pieces|])
    ensures var q := Place(p, op, base, defaultNear); q.Some? && q.value.pieces == p.pieces ==> q.value.size == p.size
  {
    hide PowerOfTwo, Nops, LE;
  }
}
