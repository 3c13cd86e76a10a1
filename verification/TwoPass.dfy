/** A two-pass assembler: the first pass places every instruction and finds every label, the second writes the
    bytes with the finished label table. The one-pass engine of Assembler.dfy is proved equal to it. */
module TwoPass {
  import opened Bytes
  import opened Assembler
  import opened Arith

  datatype Piece =
    | Raw(bytes: seq<u8>)
    | Rel(head: seq<u8>, id: nat, end: nat, size: nat, disp: int)
    | AbsLabel(id: nat, end: nat)
    | AbsJump(head: seq<u8>, addr: nat, start: nat, end: nat, size: nat)
  {
    function Size(): nat {
      match this
      case Raw(bs) => |bs|
      case Rel(h, _, _, n, _) => |h| + n
      case AbsLabel(_, _) => 8
      case AbsJump(h, _, _, _, n) => |h| + n
    }

    predicate Known(table: map<nat, nat>) {
      (Rel? || AbsLabel?) ==> id in table
    }

    /** What the field holds: the distance from the end of the field, or an address. */
    function Value(table: map<nat, nat>, base: nat): int
      requires Known(table)
    {
      match this
      case Raw(_) => 0
      case Rel(_, id, end, _, disp) => table[id] + disp - end
      case AbsLabel(id, _) => base + table[id]
      case AbsJump(_, addr, _, end, _) => addr - (base + end)
    }

    function Content(table: map<nat, nat>, base: nat): (bs: seq<u8>)
      ensures |bs| == Size()
    {
      var v := if Known(table) then Value(table, base) else 0;
      match this
      case Raw(bs) => bs
      case Rel(h, _, _, n, _) => h + LE(v, n)
      case AbsLabel(_, _) => LE(v, 8)
      case AbsJump(h, _, _, _, n) => h + LE(v, n)
    }

    /** A displacement to a label that is known is in the range of its field. */
    predicate Fits(table: map<nat, nat>) {
      Rel? && id in table ==>
        var v := table[id] + disp - end;
        InInt32(v) && (size == 1 ==> InInt8(v))
    }

    /** The check the source makes on an absolute jump in a fixed buffer, counted from the instruction's start. */
    predicate Accepted(base: nat) {
      AbsJump? ==> InInt32(addr - (base + start))
    }

    predicate FarFits(base: nat) {
      AbsJump? ==> if size == 1 then InInt8(addr - (base + end)) else InInt32(addr - (base + end))
    }

    function Ref_(auto: bool): Ref
      requires Rel? || AbsLabel?
    {
      if Rel? then Ref(id, end, size, AsIs, disp) else Ref(id, end, 8, if auto then AddTop else Abs, 0)
    }
  }

  datatype Plan = Plan(pieces: seq<Piece>, size: nat, defs: map<nat, nat>) {
    function Add(p: Piece): Plan {
      Plan(pieces + [p], size + p.Size(), defs)
    }
  }

  /** The first pass on one call: where it goes and how long it is. */
  function Place(p: Plan, op: Op, base: nat, defaultNear: bool): Option<Plan> {
    match op
    case Db(b) => Some(p.Add(Raw([b])))
    case Define(id) => if id in p.defs then None else Some(p.(defs := p.defs[id := p.size]))
    case Assign(dst, src) =>
      if src in p.defs && dst !in p.defs then Some(p.(defs := p.defs[dst := p.defs[src]])) else None
    case Jump(id, f) =>
      var head := if f.longPref == 0 then [f.longCode] else [f.longPref, f.longCode];
      var short := Rel([f.shortCode], id, p.size + 2, 1, 0);
      var long := Rel(head, id, p.size + |head| + 4, 4, 0);
      if f.kind.Far? then None
      else if id in p.defs then
        if !f.kind.Near? && InInt8(p.defs[id] - (p.size + 2)) then Some(p.Add(short))
        else if f.kind.Short? then None
        else Some(p.Add(long))
      else Some(p.Add(if f.kind.Near? || (f.kind.Auto? && defaultNear) then long else short))
    case PutRel(id, disp) => Some(p.Add(Rel([], id, p.size + 4, 4, disp)))
    case PutAbs(id) => Some(p.Add(AbsLabel(id, p.size + 8)))
    case JumpAbs(addr, f) =>
      var head := if f.longPref == 0 then [f.longCode] else [f.longPref, f.longCode];
      var d := addr - (base + p.size + 2);
      if f.kind.Far? then None
      else if !f.kind.Near? && InInt8(d) then Some(p.Add(AbsJump([f.shortCode], addr, p.size, p.size + 2, 1)))
      else if f.kind.Short? then None
      else Some(p.Add(AbsJump(head, addr, p.size, p.size + |head| + 4, 4)))
    case Align(x, m) =>
      if x < 1 || !PowerOfTwo(x) then None
      else Some(p.Add(Raw(Nops(Padding(base + p.size, x), m))))
  }

  function Layout(ops: seq<Op>, base: nat, defaultNear: bool): Option<Plan> {
    if ops == [] then Some(Plan([], 0, map[]))
    else
      var p :- Layout(ops[..|ops| - 1], base, defaultNear);
      Place(p, ops[|ops| - 1], base, defaultNear)
  }

  /** The second pass; a label that the table lacks leaves zeros. */
  function Render(ps: seq<Piece>, table: map<nat, nat>, base: nat): seq<u8> {
    if ps == [] then []
    else Render(ps[..|ps| - 1], table, base) + ps[|ps| - 1].Content(table, base)
  }

  predicate Complete(p: Plan) {
    forall i :: 0 <= i < |p.pieces| ==> p.pieces[i].Known(p.defs)
  }

  predicate AllFit(ps: seq<Piece>, table: map<nat, nat>) {
    forall i :: 0 <= i < |ps| ==> ps[i].Fits(table)
  }

  predicate AllFarFit(ps: seq<Piece>, base: nat) {
    forall i :: 0 <= i < |ps| ==> ps[i].FarFits(base)
  }

  predicate AllAccepted(ps: seq<Piece>, base: nat) {
    forall i :: 0 <= i < |ps| ==> ps[i].Accepted(base)
  }

  function Unresolved(ps: seq<Piece>, table: map<nat, nat>, auto: bool): seq<Ref> {
    if ps == [] then []
    else
      var p := ps[|ps| - 1];
      Unresolved(ps[..|ps| - 1], table, auto) + (if p.Known(table) then [] else [p.Ref_(auto)])
  }

  ghost predicate Placed(ps: seq<Piece>, size: nat) {
    if ps == [] then size == 0
    else
      var p := ps[|ps| - 1];
      && p.Size() <= size
      && (p.Raw? || p.end == size)
      && (p.Rel? ==> p.size == 1 || p.size == 4)
      && (p.AbsJump? ==> p.start + p.Size() == size && (p.size == 1 || p.size == 4))
      && Placed(ps[..|ps| - 1], size - p.Size())
  }

  /** What ties the one-pass engine to the plan: same size and labels, the pending references are the fields
      the plan cannot fill yet, and the buffer, once its saved patches are applied, is the rendered plan. */
  ghost predicate Agree(s: State, p: Plan, base: nat) {
    && Valid(s)
    && p.size == |s.buf| && p.defs == s.defs && Placed(p.pieces, p.size)
    && (forall id :: id in p.defs ==> p.defs[id] <= p.size)
    && s.pending == Unresolved(p.pieces, p.defs, s.auto)
    && Applied(s.buf, s.saved, base) == Render(p.pieces, p.defs, base)
    && AllFit(p.pieces, p.defs)
    && (!s.auto ==> s.saved == [] && s.base == base && AllAccepted(p.pieces, base))
    && (s.auto ==> PageAligned(s) && ((forall q :: q in s.saved ==> PatchFits(q, base)) <==> AllFarFit(p.pieces, base)))
  }

  predicate Acceptable(p: Plan, s: State, base: nat) {
    AllFit(p.pieces, p.defs) && (!s.auto ==> p.size <= s.maxSize && AllAccepted(p.pieces, base))
  }

  lemma {:induction false} AppliedAppend(buf: seq<u8>, saved: seq<Patch>, base: nat, bs: seq<u8>)
    requires forall i :: 0 <= i < |saved| ==> saved[i].offset + saved[i].size <= |buf|
    ensures Applied(buf + bs, saved, base) == Applied(buf, saved, base) + bs
    decreases |saved|
  {
    if saved != [] {
      AppliedAppend(buf, saved[..|saved| - 1], base, bs);
    }
  }

  /** The piece records its own position when it is placed next. */
  predicate Follows(p: Plan, q: Piece) {
    && (q.Raw? || q.end == p.size + q.Size())
    && (q.Rel? ==> q.size == 1 || q.size == 4)
    && (q.AbsJump? ==> q.start == p.size && (q.size == 1 || q.size == 4))
  }

  lemma AddedRender(p: Plan, q: Piece, base: nat, auto: bool)
    ensures Render(p.Add(q).pieces, p.defs, base) == Render(p.pieces, p.defs, base) + q.Content(p.defs, base)
    ensures Unresolved(p.Add(q).pieces, p.defs, auto)
         == Unresolved(p.pieces, p.defs, auto) + (if q.Known(p.defs) then [] else [q.Ref_(auto)])
    ensures Placed(p.pieces, p.size) && Follows(p, q) ==> Placed(p.Add(q).pieces, p.Add(q).size)
    ensures AllFit(p.Add(q).pieces, p.defs) <==> AllFit(p.pieces, p.defs) && q.Fits(p.defs)
    ensures AllAccepted(p.Add(q).pieces, base) <==> AllAccepted(p.pieces, base) && q.Accepted(base)
    ensures AllFarFit(p.Add(q).pieces, base) <==> AllFarFit(p.pieces, base) && q.FarFits(base)
  {
    hide Piece.Content, Piece.Value, Piece.Fits, Piece.Accepted, Piece.FarFits, Piece.Ref_;
    var ps := p.Add(q).pieces;
    assert ps[..|ps| - 1] == p.pieces && ps[|ps| - 1] == q;
    assert forall i :: 0 <= i < |p.pieces| ==> ps[i] == p.pieces[i];
    assert p.Add(q).size - q.Size() == p.size;
  }

  /** Bytes that are final as soon as they are emitted. */
  lemma EmitAgrees(s: State, p: Plan, base: nat, alloc: Allocator, q: Piece)
    requires Agree(s, p, base) && PageAlloc(alloc)
    requires q.Known(p.defs) && q.Fits(p.defs) && (s.auto ==> !q.AbsJump?) && (!s.auto ==> q.Accepted(base))
    requires Follows(p, q)
    ensures var t := Emit(s, alloc, q.Content(p.defs, base));
      && (t.Some? <==> (!s.auto ==> p.Add(q).size <= s.maxSize))
      && (t.Some? ==> Agree(t.value, p.Add(q), base) && |t.value.buf| == p.Add(q).size)
  {
    hide Emit, Applied, Render, Unresolved, Placed, AllFit, AllAccepted, AllFarFit, LE, Piece.Content, Piece.Fits;
    EmitSpec(s, alloc, q.Content(p.defs, base));
    AddedRender(p, q, base, s.auto);
    AppliedAppend(s.buf, s.saved, base, q.Content(p.defs, base));
  }

  lemma RefContent(q: Piece, table: map<nat, nat>, base: nat, auto: bool)
    requires (q.Rel? || q.AbsLabel?) && q.id !in table
    ensures q.Content(table, base) == (if q.Rel? then q.head else []) + LE(0, q.Ref_(auto).size)
    ensures !q.Known(table) && q.Fits(table) && q.Accepted(base) && q.FarFits(base)
  {}

  /** A field whose label has no offset yet: zeros, and a pending reference. */
  lemma EmitRefAgrees(s: State, p: Plan, base: nat, alloc: Allocator, q: Piece)
    requires Agree(s, p, base) && PageAlloc(alloc) && Follows(p, q)
    requires (q.Rel? || q.AbsLabel?) && q.id !in p.defs
    ensures var r := q.Ref_(s.auto);
      var t := EmitRef(s, alloc, if q.Rel? then q.head else [], r.id, r.size, r.mode, r.disp);
      && (t.Some? <==> (!s.auto ==> p.Add(q).size <= s.maxSize))
      && (t.Some? ==> Agree(t.value, p.Add(q), base) && |t.value.buf| == p.Add(q).size)
  {
    hide Emit, Applied, Render, Unresolved, Placed, AllFit, AllAccepted, AllFarFit, LE, Piece.Content;
    var bs := (if q.Rel? then q.head else []) + LE(0, q.Ref_(s.auto).size);
    RefContent(q, p.defs, base, s.auto);
    EmitSpec(s, alloc, bs);
    AddedRender(p, q, base, s.auto);
    AppliedAppend(s.buf, s.saved, base, bs);
  }

  lemma OverwriteTail(a: seq<u8>, h: seq<u8>, z: seq<u8>, v: seq<u8>, tail: seq<u8>)
    requires |z| == |v|
    ensures Overwrite(a + (h + z) + tail, |a| + |h|, v) == a + (h + v) + tail
  {}

  lemma AppliedLast(buf: seq<u8>, saved: seq<Patch>, base: nat, p: Patch)
    requires p.offset + p.size <= |buf| && forall i :: 0 <= i < |saved| ==> saved[i].offset + saved[i].size <= |buf|
    ensures Applied(buf, saved + [p], base) == Overwrite(Applied(buf, saved, base), p.offset, LE(PatchValue(p, base), p.size))
  {
    assert (saved + [p])[..|saved|] == saved;
  }

  /** A field that depends on the final base address of an AutoGrow buffer: zeros, and a saved patch. */
  lemma EmitPatchAgrees(s: State, p: Plan, base: nat, alloc: Allocator, q: Piece)
    requires Agree(s, p, base) && PageAlloc(alloc) && Follows(p, q) && s.auto
    requires (q.AbsJump? && q.size == 4) || (q.AbsLabel? && q.id in p.defs)
    ensures var t := if q.AbsJump? then EmitPatch(s, alloc, q.head, q.addr - q.end, 4, Abs)
                     else EmitPatch(s, alloc, [], p.defs[q.id], 8, AddTop);
      t.Some? && Agree(t.value, p.Add(q), base) && |t.value.buf| == p.Add(q).size
  {
    hide Emit, Applied, Render, Unresolved, Placed, AllFit, AllAccepted, AllFarFit, LE, Overwrite, Piece.Content;
    var h := if q.AbsJump? then q.head else [];
    var n := if q.AbsJump? then 4 else 8;
    var patch := if q.AbsJump? then Patch(p.size + |h|, q.addr - q.end, 4, Abs) else Patch(p.size + |h|, p.defs[q.id], 8, AddTop);
    var z, v := LE(0, n), LE(q.Value(p.defs, base), n);
    PatchContent(q, p.defs, base, patch, h);
    EmitSpec(s, alloc, h + z);
    AddedRender(p, q, base, s.auto);
    AppliedAppend(s.buf, s.saved, base, h + z);
    AppliedLast(s.buf + (h + z), s.saved, base, patch);
    var a := Applied(s.buf, s.saved, base);
    assert a + (h + z) + [] == a + (h + z) && a + (h + v) + [] == a + (h + v);
    OverwriteTail(a, h, z, v, []);
    assert forall x :: x in s.saved + [patch] <==> x in s.saved || x == patch;
  }

  lemma PatchContent(q: Piece, table: map<nat, nat>, base: nat, patch: Patch, h: seq<u8>)
    requires (q.AbsJump? && q.size == 4) || (q.AbsLabel? && q.id in table)
    requires patch == if q.AbsJump? then Patch(patch.offset, q.addr - q.end, 4, Abs) else Patch(patch.offset, table[q.id], 8, AddTop)
    requires h == if q.AbsJump? then q.head else []
    ensures q.Known(table) && q.Content(table, base) == h + LE(PatchValue(patch, base), patch.size) && q.Value(table, base) == PatchValue(patch, base)
    ensures PatchFits(patch, base) <==> q.FarFits(base)
    ensures q.Fits(table) && q.Size() == |h| + patch.size
  {
    hide LE;
    assert [] + LE(PatchValue(patch, base), 8) == LE(PatchValue(patch, base), 8);
  }

  lemma {:induction false} RenderConcat(a: seq<Piece>, b: seq<Piece>, table: map<nat, nat>, base: nat, auto: bool)
    ensures Render(a + b, table, base) == Render(a, table, base) + Render(b, table, base)
    ensures Unresolved(a + b, table, auto) == Unresolved(a, table, auto) + Unresolved(b, table, auto)
    decreases |b|
  {
    hide Piece.Content, Piece.Ref_, Piece.Known;
    if b == [] { assert a + b == a; }
    else {
      var b' := b[..|b| - 1];
      assert (a + b)[..|a + b| - 1] == a + b';
      RenderConcat(a, b', table, base, auto);
    }
  }

  lemma RenderOne(q: Piece, table: map<nat, nat>, base: nat, auto: bool)
    ensures Render([q], table, base) == q.Content(table, base)
    ensures Unresolved([q], table, auto) == if q.Known(table) then [] else [q.Ref_(auto)]
  {
    assert [q][..0] == [];
  }

  lemma {:induction false} PlacedPrefix(a: seq<Piece>, b: seq<Piece>, size: nat, table: map<nat, nat>, base: nat)
    requires Placed(a + b, size)
    ensures |Render(a + b, table, base)| == size
    ensures Placed(a, |Render(a, table, base)|)
    decreases |a| + |b|
  {
    if b == [] {
      assert a + b == a;
      if a != [] { assert a[..|a| - 1] + [] == a[..|a| - 1]; PlacedPrefix(a[..|a| - 1], [], size - a[|a| - 1].Size(), table, base); }
    } else {
      assert (a + b)[..|a + b| - 1] == a + b[..|b| - 1];
      PlacedPrefix(a, b[..|b| - 1], size - b[|b| - 1].Size(), table, base);
    }
  }

  lemma AppliedNone(buf: seq<u8>, base: nat)
    ensures Applied(buf, [], base) == buf
  {}

  /** Fixing one reference writes its field and no other byte. */
  lemma FixApplies(s: State, r: Ref, offset: nat, base: nat, a: seq<u8>, h: seq<u8>, tail: seq<u8>)
    requires Valid(s) && r.size <= r.end <= |s.buf| && |a| + |h| + r.size == r.end
    requires Applied(s.buf, s.saved, base) == a + (h + LE(0, r.size)) + tail
    requires !s.auto ==> s.saved == [] && s.base == base
    requires r.mode.Abs? ==> !s.auto && offset == |s.buf|
    requires r.mode.AddTop? ==> s.auto && r.size == 8
    ensures var t := Fix(s, r, offset);
      var v := if r.mode.AsIs? then offset - r.end + r.disp else base + offset + r.disp;
      && (t.Some? <==> RefValue(s, r, offset).Some?)
      && (t.Some? ==>
          && Applied(t.value.buf, t.value.saved, base) == a + (h + LE(v, r.size)) + tail
          && (!s.auto ==> t.value.saved == [])
          && ((forall q :: q in t.value.saved ==> PatchFits(q, base)) <==> (forall q :: q in s.saved ==> PatchFits(q, base))))
  {
    hide Applied, LE, Overwrite;
    var t := Fix(s, r, offset);
    if t.Some? {
      var v := RefValue(s, r, offset).value;
      if s.auto {
        var p := Patch(r.end - r.size, v, r.size, r.mode);
        AppliedLast(s.buf, s.saved, base, p);
        OverwriteTail(a, h, LE(0, r.size), LE(PatchValue(p, base), r.size), tail);
        assert PatchFits(p, base);
        assert forall x :: x in s.saved + [p] <==> x in s.saved || x == p;
      } else {
        AppliedNone(s.buf, base); AppliedNone(t.value.buf, base);
        OverwriteTail(a, h, LE(0, r.size), LE(v, r.size), tail);
      }
    }
  }

  lemma {:induction false} RefsInside(ps: seq<Piece>, size: nat, table: map<nat, nat>, auto: bool)
    requires Placed(ps, size)
    ensures forall r :: r in Unresolved(ps, table, auto) ==> r.size <= r.end <= size
    decreases |ps|
  {
    if ps != [] { RefsInside(ps[..|ps| - 1], size - ps[|ps| - 1].Size(), table, auto); }
  }

  /** In a fixed buffer an absolute reference is resolved with the current address, not with the label's. */
  predicate AbsSafe(auto: bool, id: nat, offset: nat, size: nat, ps: seq<Piece>) {
    auto || offset == size || forall i :: 0 <= i < |ps| ==> !(ps[i].AbsLabel? && ps[i].id == id)
  }

  /** Halfway through the references to a new label: the pieces in done are fixed, those in todo are not. */
  ghost predicate Mid(s: State, id: nat, offset: nat, table: map<nat, nat>, done: seq<Piece>, todo: seq<Piece>, base: nat) {
    && Valid(s) && id !in table && s.defs == table[id := offset] && Placed(done + todo, |s.buf|)
    && s.pending == Unresolved(done, s.defs, s.auto)
    && Applied(s.buf, s.saved, base) == Render(done, s.defs, base) + Render(todo, table, base)
    && AllFit(todo, table) && AbsSafe(s.auto, id, offset, |s.buf|, todo)
    && (!s.auto ==> s.saved == [] && s.base == base)
  }

  lemma MidKeep(s: State, id: nat, offset: nat, table: map<nat, nat>, done: seq<Piece>, q: Piece, rest: seq<Piece>, base: nat)
    requires Mid(s, id, offset, table, done, [q] + rest, base) && (q.Known(table) || q.id != id)
    ensures Mid(if q.Known(table) then s else s.(pending := s.pending + [q.Ref_(s.auto)]), id, offset, table, done + [q], rest, base)
    ensures q.Fits(s.defs)
    ensures !q.Known(table) ==> q.Ref_(s.auto).id != id && q.Ref_(s.auto).size <= q.Ref_(s.auto).end <= |s.buf|
  {
    hide Applied, Render, Placed, Unresolved, Piece.Content, LE;
    MidShift(s, id, offset, table, done, q, rest, base);
    ContentStable(q, table, id, offset, base);
  }

  lemma MidShift(s: State, id: nat, offset: nat, table: map<nat, nat>, done: seq<Piece>, q: Piece, rest: seq<Piece>, base: nat)
    requires Mid(s, id, offset, table, done, [q] + rest, base)
    ensures Placed(done + [q] + rest, |s.buf|) && AllFit(rest, table) && q.Fits(table) && AbsSafe(s.auto, id, offset, |s.buf|, rest)
    ensures Unresolved(done + [q], s.defs, s.auto) == s.pending + (if q.Known(s.defs) then [] else [q.Ref_(s.auto)])
    ensures Render(done + [q], s.defs, base) == Render(done, s.defs, base) + q.Content(s.defs, base)
    ensures Applied(s.buf, s.saved, base) == Render(done, s.defs, base) + q.Content(table, base) + Render(rest, table, base)
    ensures q.Rel? || q.AbsLabel? ==>
      var r := q.Ref_(s.auto);
      r.size <= r.end <= |s.buf| && |Render(done, s.defs, base)| + q.Size() == r.end && (q.Rel? ==> r.size == 1 || r.size == 4)
    ensures q.AbsLabel? && q.id == id ==> s.auto || offset == |s.buf|
  {
    hide Applied, Render, Placed, Unresolved, Piece.Content, LE;
    assert done + [q] + rest == done + ([q] + rest);
    RenderConcat(done, [q], s.defs, base, s.auto); RenderOne(q, s.defs, base, s.auto);
    RenderConcat([q], rest, table, base, s.auto); RenderOne(q, table, base, s.auto);
    PlacedPrefix(done + [q], rest, |s.buf|, s.defs, base);
    RenderConcat(done + [q], rest, s.defs, base, s.auto);
    PlacedEnd(done, q, s.defs, base);
    assert forall i :: 0 <= i < |rest| ==> ([q] + rest)[i + 1] == rest[i];
    assert ([q] + rest)[0] == q;
  }

  lemma MidFix(s: State, id: nat, offset: nat, table: map<nat, nat>, done: seq<Piece>, q: Piece, rest: seq<Piece>, base: nat)
    requires Mid(s, id, offset, table, done, [q] + rest, base) && !q.Known(table) && q.id == id
    ensures var r := q.Ref_(s.auto);
      && r.id == id && r.size <= r.end <= |s.buf|
      && var t := Fix(s, r, offset);
      && (t.Some? <==> q.Fits(s.defs))
      && (t.Some? ==>
          && Mid(t.value, id, offset, table, done + [q], rest, base)
          && t.value == s.(buf := t.value.buf, saved := t.value.saved)
          && ((forall x :: x in t.value.saved ==> PatchFits(x, base)) <==> (forall x :: x in s.saved ==> PatchFits(x, base))))
  {
    hide Applied, Render, Placed, Unresolved, Piece.Content, LE, Overwrite;
    MidShift(s, id, offset, table, done, q, rest, base);
    var r, h := q.Ref_(s.auto), if q.Rel? then q.head else [];
    RefContent(q, table, base, s.auto);
    RefFixed(q, s.defs, base, s.auto, h);
    FixApplies(s, r, offset, base, Render(done, s.defs, base), h, Render(rest, table, base));
    FixValid(s, r, offset);
  }

  lemma {:induction false} ResolveAgrees(s: State, id: nat, offset: nat, table: map<nat, nat>, done: seq<Piece>, todo: seq<Piece>, base: nat)
    requires Mid(s, id, offset, table, done, todo, base)
    ensures forall r :: r in Unresolved(todo, table, s.auto) ==> r.size <= r.end <= |s.buf|
    ensures var t := Resolve(s, id, offset, Unresolved(todo, table, s.auto));
      && (t.Some? <==> AllFit(todo, s.defs))
      && (t.Some? ==>
          && Mid(t.value, id, offset, table, done + todo, [], base)
          && t.value == s.(buf := t.value.buf, pending := t.value.pending, saved := t.value.saved)
          && ((forall x :: x in t.value.saved ==> PatchFits(x, base)) <==> (forall x :: x in s.saved ==> PatchFits(x, base))))
    decreases |todo|
  {
    hide Mid, Fix, Valid, Unresolved, AllFit, Render, Piece.Fits, Piece.Content, PatchFits;
    RenderNone(table, base); FitNone(s.defs);
    TodoRefs(s, id, offset, table, done, todo, base);
    if todo == [] {
      assert done + todo == done;
    } else {
      var q, rest := todo[0], todo[1..];
      assert [q] + rest == todo && done + [q] + rest == done + todo;
      RenderConcat([q], rest, table, base, s.auto); RenderOne(q, table, base, s.auto);
      FitCons(q, rest, s.defs);
      MidDefs(s, id, offset, table, done, todo, base);
      var todoRefs, restRefs := Unresolved(todo, table, s.auto), Unresolved(rest, table, s.auto);
      if q.Known(table) {
        assert [] + restRefs == restRefs;
      } else {
        assert todoRefs[0] == q.Ref_(s.auto) && todoRefs[1..] == restRefs;
      }
      if q.Known(table) || q.id != id {
        MidKeep(s, id, offset, table, done, q, rest, base);
        var s' := if q.Known(table) then s else s.(pending := s.pending + [q.Ref_(s.auto)]);
        ResolveAgrees(s', id, offset, table, done + [q], rest, base);
      } else {
        MidFix(s, id, offset, table, done, q, rest, base);
        var t := Fix(s, q.Ref_(s.auto), offset);
        if t.Some? {
          MidDefs(t.value, id, offset, table, done + [q], rest, base);
          ResolveAgrees(t.value, id, offset, table, done + [q], rest, base);
        }
      }
    }
  }

  lemma TodoRefs(s: State, id: nat, offset: nat, table: map<nat, nat>, done: seq<Piece>, todo: seq<Piece>, base: nat)
    requires Mid(s, id, offset, table, done, todo, base)
    ensures forall r :: r in Unresolved(todo, table, s.auto) ==> r.size <= r.end <= |s.buf|
  {
    RefsInside(done + todo, |s.buf|, table, s.auto);
    RenderConcat(done, todo, table, base, s.auto);
  }

  lemma MidDefs(s: State, id: nat, offset: nat, table: map<nat, nat>, done: seq<Piece>, todo: seq<Piece>, base: nat)
    requires Mid(s, id, offset, table, done, todo, base)
    ensures s.defs == table[id := offset] && Valid(s)
  {}

  lemma FitNone(table: map<nat, nat>)
    ensures AllFit([], table)
  {}

  lemma FitCons(q: Piece, rest: seq<Piece>, table: map<nat, nat>)
    ensures AllFit([q] + rest, table) <==> q.Fits(table) && AllFit(rest, table)
  {
    hide Piece.Fits;
    var ps := [q] + rest;
    assert ps[0] == q && forall i :: 0 <= i < |rest| ==> ps[i + 1] == rest[i];
    assert forall i :: 0 < i < |ps| ==> ps[i] == rest[i - 1];
  }

  lemma RenderNone(table: map<nat, nat>, base: nat)
    ensures Render([], table, base) == [] && forall auto :: Unresolved([], table, auto) == []
  {}

  lemma ContentStable(q: Piece, table: map<nat, nat>, id: nat, offset: nat, base: nat)
    requires id !in table && (q.Known(table) || q.id != id)
    ensures q.Content(table[id := offset], base) == q.Content(table, base)
    ensures q.Known(table[id := offset]) <==> q.Known(table)
    ensures q.Fits(table) <==> q.Fits(table[id := offset])
  {}

  lemma RefFixed(q: Piece, table: map<nat, nat>, base: nat, auto: bool, h: seq<u8>)
    requires (q.Rel? || q.AbsLabel?) && q.id in table && h == if q.Rel? then q.head else []
    ensures var r := q.Ref_(auto);
      var v := if r.mode.AsIs? then table[q.id] - r.end + r.disp else base + table[q.id] + r.disp;
      q.Known(table) && q.Content(table, base) == h + LE(v, r.size)
  {}

  lemma PlacedEnd(done: seq<Piece>, q: Piece, table: map<nat, nat>, base: nat)
    requires Placed(done + [q], |Render(done + [q], table, base)|)
    ensures q.Rel? || q.AbsLabel? ==> q.end == |Render(done, table, base)| + q.Size()
    ensures q.Rel? ==> q.size == 1 || q.size == 4
  {
    assert (done + [q])[..|done|] == done;
  }

  lemma FixValid(s: State, r: Ref, offset: nat)
    requires Valid(s) && r.size <= r.end <= |s.buf|
    ensures var t := Fix(s, r, offset);
      t.Some? ==>
        && Valid(t.value) && |t.value.buf| == |s.buf|
        && t.value == s.(buf := t.value.buf, saved := t.value.saved)
  {}

  lemma DefineAgrees(s: State, p: Plan, base: nat, id: nat, offset: nat)
    requires Agree(s, p, base) && AbsSafe(s.auto, id, offset, |s.buf|, p.pieces) && offset <= p.size
    ensures var t := Define_(s, id, offset);
      var q := p.(defs := p.defs[id := offset]);
      && (t.Some? <==> id !in p.defs && AllFit(q.pieces, q.defs))
      && (t.Some? ==> Agree(t.value, q, base) && |t.value.buf| == q.size)
  {
    hide Applied, Placed, Render, Unresolved, AllFit, AllAccepted, AllFarFit, PatchFits, Resolve;
    if id !in s.defs {
      var u := s.(defs := s.defs[id := offset], pending := []);
      assert [] + p.pieces == p.pieces && p.pieces + [] == p.pieces;
      RenderNone(u.defs, base);
      assert [] + Render(p.pieces, p.defs, base) == Render(p.pieces, p.defs, base);
      ResolveAgrees(u, id, offset, s.defs, [], p.pieces, base);
      var t := Resolve(u, id, offset, s.pending);
      if t.Some? {
        ResolveValid(u, id, offset, s.pending);
        MidDone(t.value, s.defs, p, base, id, offset);
      }
    }
  }

  lemma MidDone(t: State, table: map<nat, nat>, p: Plan, base: nat, id: nat, offset: nat)
    requires Mid(t, id, offset, table, p.pieces, [], base) && |t.buf| == p.size && Placed(p.pieces, p.size)
    ensures t.pending == Unresolved(p.pieces, t.defs, t.auto)
    ensures Applied(t.buf, t.saved, base) == Render(p.pieces, t.defs, base)
  {
    hide Applied, Placed, Unresolved, Render;
    RenderNone(table, base);
    assert Render(p.pieces, t.defs, base) + [] == Render(p.pieces, t.defs, base);
  }

  /** Calls on which an AutoGrow buffer lays out code exactly as a fixed one: near absolute jumps, and
      alignments that divide the page size. */
  predicate AutoOp(op: Op) {
    && (op.JumpAbs? ==> op.form.kind.Near?)
    && (op.Align? && op.x > 0 ==> PAGE % op.x == 0)
  }

  lemma PaddingSame(a: nat, b: nat, n: nat, x: nat)
    requires x > 0 && PAGE % x == 0 && a % PAGE == 0 && b % PAGE == 0
    ensures Padding(a + n, x) == Padding(b + n, x)
  {
    ModOfMultiple(a, n, x); ModOfMultiple(b, n, x);
  }

  lemma ModOfMultiple(a: nat, n: nat, x: nat)
    requires x > 0 && PAGE % x == 0 && a % PAGE == 0
    ensures (a + n) % x == n % x
  {
    var k := a / PAGE * (PAGE / x);
    assert a == k * x by {
      assert PAGE == PAGE / x * x;
      assert a == a / PAGE * PAGE;
      assert a / PAGE * (PAGE / x * x) == a / PAGE * (PAGE / x) * x;
    }
    ModAdd(k, n, x);
  }

  lemma {:induction false} ModAdd(k: nat, n: nat, x: nat)
    requires x > 0
    ensures (k * x + n) % x == n % x
  {
    if k > 0 {
      ModAdd(k - 1, n, x);
      assert k * x == (k - 1) * x + x;
      ModPlus((k - 1) * x + n, x);
    }
  }

  lemma ModPlus(m: int, x: nat)
    requires x > 0
    ensures (m + x) % x == m % x
  {
    var q, r := m / x, m % x;
    assert m + x == (q + 1) * x + r && (q + 2) * x == (q + 1) * x + x;
    DivUnique(m + x, x, q + 1);
  }

  const LIMIT: nat := 0x8000_0000

  /** An AutoGrow buffer is asked for AutoOps only; in a fixed buffer no label that assignL defines (an id in
      `targets`) is referenced absolutely. */
  predicate Sane(auto: bool, op: Op, targets: set<nat>) {
    if auto then AutoOp(op)
    else (op.Assign? ==> op.dst in targets) && (op.PutAbs? ==> op.id !in targets)
  }

  predicate NoAbsTo(p: Plan, auto: bool, targets: set<nat>) {
    auto || forall i :: 0 <= i < |p.pieces| ==> p.pieces[i].AbsLabel? ==> p.pieces[i].id !in targets
  }

  /** A step of the engine and a step of the plan match: if the engine accepts (below 2 GiB) so does the plan
      and they still agree; if the plan is acceptable the engine accepts. */
  ghost predicate Matches(s: State, t: Option<State>, q: Option<Plan>, base: nat) {
    && (t.Some? && |t.value.buf| <= LIMIT ==> q.Some? && Agree(t.value, q.value, base))
    && (q.Some? && q.value.size <= LIMIT && Acceptable(q.value, s, base) ==> t.Some? && |t.value.buf| == q.value.size)
  }

  lemma MarginAgrees(s: State, p: Plan, base: nat, alloc: Allocator)
    requires Agree(s, p, base) && PageAlloc(alloc)
    ensures Agree(Margin(s, alloc), p, base) && (!s.auto ==> Margin(s, alloc) == s)
  {}

  /** A piece that does not fit makes the plan unacceptable, one that fits is emitted. */
  lemma EmitMatches(s: State, p: Plan, base: nat, alloc: Allocator, q: Piece)
    requires Agree(s, p, base) && PageAlloc(alloc) && Follows(p, q) && q.Known(p.defs) && (s.auto ==> !q.AbsJump?)
    requires q.Fits(p.defs) && (!s.auto ==> q.Accepted(base))
    ensures Matches(s, Emit(s, alloc, q.Content(p.defs, base)), Some(p.Add(q)), base)
  {
    hide Agree, Emit, Piece.Content;
    EmitAgrees(s, p, base, alloc, q);
  }

  lemma JumpAgrees(s: State, p: Plan, base: nat, alloc: Allocator, id: nat, f: Form)
    requires Agree(s, p, base) && PageAlloc(alloc)
    ensures Matches(s, Jump_(s, alloc, id, f), Place(p, Jump(id, f), base, s.defaultNear), base)
  {
    hide Agree, Emit, LE, EmitRef, AllFit, AllAccepted, AllFarFit, Piece.Content, Piece.Fits, Valid;
    var m := Margin(s, alloc);
    MarginAgrees(s, p, base, alloc);
    AgreeFacts(m, p, base);
    var short := Rel([f.shortCode], id, p.size + 2, 1, 0);
    var long := Rel(f.LongHead(), id, p.size + |f.LongHead()| + 4, 4, 0);
    if f.kind.Far? {
    } else if id in p.defs {
      BackwardJumpAgrees(m, p, base, alloc, id, f);
    } else if IsNear(s, f.kind) { EmitRefAgrees(m, p, base, alloc, long); }
    else { EmitRefAgrees(m, p, base, alloc, short); }
  }

  /** What adding a piece asks of a plan. */
  lemma AddedFits(p: Plan, q: Piece, base: nat)
    ensures AllFit(p.Add(q).pieces, p.defs) <==> AllFit(p.pieces, p.defs) && q.Fits(p.defs)
    ensures AllAccepted(p.Add(q).pieces, base) <==> AllAccepted(p.pieces, base) && q.Accepted(base)
  {
    hide Piece.Content, Render, Unresolved, Placed;
    AddedRender(p, q, base, false);
  }

  lemma BackwardJumpAgrees(s: State, p: Plan, base: nat, alloc: Allocator, id: nat, f: Form)
    requires Agree(s, p, base) && PageAlloc(alloc) && id in p.defs && id in s.defs && !f.kind.Far?
    ensures var disp := s.defs[id] - |s.buf|;
      var t := if InInt32(disp) && MakeJmp(disp, f).Some? then Emit(s, alloc, MakeJmp(disp, f).value) else None;
      Matches(s, t, Place(p, Jump(id, f), base, s.defaultNear), base)
  {
    hide Agree, Emit, LE, AllFit, AllAccepted, AllFarFit, Piece.Content, Piece.Fits, Valid, Render, Unresolved, Placed, Matches;
    AgreeFacts(s, p, base);
    var disp := p.defs[id] - p.size;
    if !f.kind.Near? && InInt8(disp - 2) { BackwardShort(s, p, base, alloc, id, f); }
    else if !f.kind.Short? { BackwardLong(s, p, base, alloc, id, f); }
    else { Neither(s, base); }
  }

  lemma Neither(s: State, base: nat)
    ensures Matches(s, None, None, base)
  {}

  lemma BackwardShort(s: State, p: Plan, base: nat, alloc: Allocator, id: nat, f: Form)
    requires Agree(s, p, base) && PageAlloc(alloc) && id in p.defs && InInt8(p.defs[id] - p.size - 2)
    ensures Matches(s, Emit(s, alloc, [f.shortCode] + LE(p.defs[id] - p.size - 2, 1)),
                    Some(p.Add(Rel([f.shortCode], id, p.size + 2, 1, 0))), base)
  {
    hide Agree, Emit, LE, AllFit, AllAccepted, AllFarFit, Piece.Content, Piece.Fits, Valid, Render, Unresolved, Placed;
    var short, long := Rel([f.shortCode], id, p.size + 2, 1, 0), Rel(f.LongHead(), id, p.size + |f.LongHead()| + 4, 4, 0);
    JumpContent(p, f, id, base, short, long);
    EmitMatches(s, p, base, alloc, short);
  }

  lemma BackwardLong(s: State, p: Plan, base: nat, alloc: Allocator, id: nat, f: Form)
    requires Agree(s, p, base) && PageAlloc(alloc) && id in p.defs
    ensures var disp := p.defs[id] - p.size;
      Matches(s, if InInt32(disp) then Emit(s, alloc, f.LongHead() + LE(disp - |f.LongHead()| - 4, 4)) else None,
              Some(p.Add(Rel(f.LongHead(), id, p.size + |f.LongHead()| + 4, 4, 0))), base)
  {
    hide Agree, Emit, LE, AllFit, AllAccepted, AllFarFit, Piece.Content, Piece.Fits, Valid, Render, Unresolved, Placed;
    AgreeFacts(s, p, base);
    var short, long := Rel([f.shortCode], id, p.size + 2, 1, 0), Rel(f.LongHead(), id, p.size + |f.LongHead()| + 4, 4, 0);
    JumpContent(p, f, id, base, short, long);
    AddedFits(p, long, base);
    if long.Fits(p.defs) { EmitMatches(s, p, base, alloc, long); }
    else { EmitSpec(s, alloc, f.LongHead() + LE(p.defs[id] - p.size - |f.LongHead()| - 4, 4)); }
  }

  lemma JumpContent(p: Plan, f: Form, id: nat, base: nat, short: Piece, long: Piece)
    requires id in p.defs && short == Rel([f.shortCode], id, p.size + 2, 1, 0)
    requires long == Rel(f.LongHead(), id, p.size + |f.LongHead()| + 4, 4, 0)
    ensures var disp := p.defs[id] - p.size; var n := |f.LongHead()| + 4;
      && short.Content(p.defs, base) == [f.shortCode] + LE(disp - 2, 1) && (short.Fits(p.defs) <==> InInt8(disp - 2))
      && long.Content(p.defs, base) == f.LongHead() + LE(disp - |f.LongHead()| - 4, 4)
      && (long.Fits(p.defs) <==> InInt32(disp - n))
  {
    hide LE;
  }

  lemma AgreeFacts(s: State, p: Plan, base: nat)
    requires Agree(s, p, base)
    ensures p.size == |s.buf| && p.defs == s.defs && Valid(s) && (!s.auto ==> s.base == base && |s.buf| <= s.maxSize)
    ensures AllFit(p.pieces, p.defs) && (s.auto ==> s.base % PAGE == 0) && (!s.auto ==> AllAccepted(p.pieces, base))
    ensures forall id :: id in p.defs ==> p.defs[id] <= p.size
  {}

  lemma PutAgrees(s: State, p: Plan, base: nat, alloc: Allocator, id: nat, disp: int)
    requires Agree(s, p, base) && PageAlloc(alloc)
    ensures Matches(s, PutRel_(s, alloc, id, disp), Place(p, PutRel(id, disp), base, s.defaultNear), base)
    ensures Matches(s, PutAbs_(s, alloc, id), Place(p, PutAbs(id), base, s.defaultNear), base)
  {
    hide Agree, Emit, LE, EmitRef, EmitPatch, AllFit, AllAccepted, AllFarFit, Piece.Content, Piece.Fits, Valid, Render, Unresolved,
      Placed;
    var m := Margin(s, alloc);
    MarginAgrees(s, p, base, alloc);
    AgreeFacts(m, p, base);
    var rel, abs := Rel([], id, p.size + 4, 4, disp), AbsLabel(id, p.size + 8);
    AddedFits(p, rel, base); AddedFits(p, abs, base);
    if id in p.defs {
      PutContent(p, id, disp, base);
      if rel.Fits(p.defs) { EmitMatches(m, p, base, alloc, rel); }
      if s.auto { EmitPatchAgrees(m, p, base, alloc, abs); }
      else { EmitMatches(m, p, base, alloc, abs); }
    } else {
      EmitRefAgrees(m, p, base, alloc, rel); EmitRefAgrees(m, p, base, alloc, abs);
    }
  }

  lemma PutContent(p: Plan, id: nat, disp: int, base: nat)
    requires id in p.defs
    ensures var v := p.defs[id] + disp - p.size - 4; var q := Rel([], id, p.size + 4, 4, disp);
      q.Content(p.defs, base) == LE(v, 4) && (q.Fits(p.defs) <==> InInt32(v))
    ensures var q := AbsLabel(id, p.size + 8); q.Content(p.defs, base) == LE(base + p.defs[id], 8) && q.Fits(p.defs)
  {
    hide LE;
    var v := p.defs[id] + disp - p.size - 4;
    assert [] + LE(v, 4) == LE(v, 4);
  }

  lemma JumpAbsAgrees(s: State, p: Plan, base: nat, alloc: Allocator, addr: nat, f: Form)
    requires Agree(s, p, base) && PageAlloc(alloc) && (s.auto ==> f.kind.Near?)
    ensures Matches(s, JumpAbs_(s, alloc, addr, f), Place(p, JumpAbs(addr, f), base, s.defaultNear), base)
  {
    hide Agree, Emit, LE, EmitPatch, AllFit, AllAccepted, AllFarFit, Piece.Content, Valid;
    var m := Margin(s, alloc);
    MarginAgrees(s, p, base, alloc);
    AgreeFacts(m, p, base); AgreeFacts(s, p, base);
    var d := addr - (base + p.size + 2);
    var short, long := AbsJump([f.shortCode], addr, p.size, p.size + 2, 1), AbsJump(f.LongHead(), addr, p.size, p.size + |f.LongHead()| + 4, 4);
    AddedFits(p, long, base);
    JumpAbsContent(p, f, addr, base, short, long);
    if f.kind.Far? {
    } else if s.auto {
      EmitPatchAgrees(m, p, base, alloc, long);
    } else if !f.kind.Near? && InInt8(d) {
      EmitMatches(s, p, base, alloc, short);
    } else if long.Accepted(base) {
      EmitMatches(s, p, base, alloc, long);
    }
  }

  lemma JumpAbsContent(p: Plan, f: Form, addr: nat, base: nat, short: Piece, long: Piece)
    requires short == AbsJump([f.shortCode], addr, p.size, p.size + 2, 1)
    requires long == AbsJump(f.LongHead(), addr, p.size, p.size + |f.LongHead()| + 4, 4)
    ensures short.Content(p.defs, base) == [f.shortCode] + LE(addr - (base + p.size) - 2, 1)
    ensures long.Content(p.defs, base) == f.LongHead() + LE(addr - (base + p.size) - |f.LongHead()| - 4, 4)
  {
    hide LE;
  }

  lemma AlignAgrees(s: State, p: Plan, base: nat, alloc: Allocator, x: nat, multiByte: nat)
    requires Agree(s, p, base) && PageAlloc(alloc) && (s.auto ==> AutoOp(Align(x, multiByte)) && base % PAGE == 0)
    ensures Matches(s, Align_(s, alloc, x, multiByte), Place(p, Align(x, multiByte), base, s.defaultNear), base)
  {
    hide Agree;
    AgreeFacts(s, p, base);
    if x == 1 {
      var q := Raw([]);
      assert PowerOfTwo(x) && Nops(Padding(base + p.size, x), multiByte) == [] && q.Content(p.defs, base) == [];
      EmitMatches(s, p, base, alloc, q);
      assert Emit(s, alloc, []) == Some(s);
    } else if x > 0 {
      if s.auto { PaddingSame(base, s.base, p.size, x); }
      EmitMatches(s, p, base, alloc, Raw(Nops(Padding(base + p.size, x), multiByte)));
    }
  }

  lemma StepAgrees(s: State, p: Plan, base: nat, alloc: Allocator, op: Op, targets: set<nat>)
    requires Agree(s, p, base) && PageAlloc(alloc) && Sane(s.auto, op, targets) && NoAbsTo(p, s.auto, targets)
    requires s.auto ==> base % PAGE == 0
    ensures var q := Place(p, op, base, s.defaultNear);
      Matches(s, Step(s, alloc, op), q, base) && (q.Some? ==> NoAbsTo(q.value, s.auto, targets))
  {
    hide Agree, Emit, Jump_, PutRel_, PutAbs_, JumpAbs_, Align_, Define_, AllFit, AllAccepted, PowerOfTwo, Nops, LE, Valid;
    AgreeFacts(s, p, base);
    match op
    case Db(b) =>
      EmitMatches(s, p, base, alloc, Raw([b]));
      EmitOne(s, alloc, b);
    case Define(id) => DefineAgrees(s, p, base, id, |s.buf|);
    case Assign(dst, src) => if src in s.defs { DefineAgrees(s, p, base, dst, s.defs[src]); }
    case Jump(id, f) => JumpAgrees(s, p, base, alloc, id, f);
    case PutRel(id, disp) => PutAgrees(s, p, base, alloc, id, disp);
    case PutAbs(id) => PutAgrees(s, p, base, alloc, id, 0);
    case JumpAbs(addr, f) => JumpAbsAgrees(s, p, base, alloc, addr, f);
    case Align(x, m) => AlignAgrees(s, p, base, alloc, x, m);
  }

  lemma EmitOne(s: State, alloc: Allocator, b: u8)
    ensures EmitByte(s, alloc, b) == Emit(s, alloc, [b])
  {
    var t := EmitByte(s, alloc, b);
    if t.Some? { assert [b][1..] == [] && Emit(t.value, alloc, []) == t; }
  }

  /** What is unacceptable about a plan stays so when more is placed. */
  lemma PlaceMono(p: Plan, op: Op, base: nat, s: State)
    requires var q := Place(p, op, base, s.defaultNear); q.Some? && Acceptable(q.value, s, base)
    ensures Acceptable(p, s, base) && p.size <= Place(p, op, base, s.defaultNear).value.size
  {
    hide Piece.Accepted, PowerOfTwo, Nops, LE;
    var q := Place(p, op, base, s.defaultNear).value;
    assert |p.pieces| <= |q.pieces| && forall i :: 0 <= i < |p.pieces| ==> q.pieces[i] == p.pieces[i];
    forall i | 0 <= i < |p.pieces| ensures p.pieces[i].Fits(p.defs) && (!s.auto ==> p.pieces[i].Accepted(base)) {
      assert q.pieces[i].Fits(q.defs) && (!s.auto ==> q.pieces[i].Accepted(base));
      assert q.pieces[i] == p.pieces[i];
    }
  }

  ghost predicate AllSane(auto: bool, ops: seq<Op>, targets: set<nat>) {
    forall i :: 0 <= i < |ops| ==> Sane(auto, ops[i], targets)
  }

  /** The engine and the plan agree after every sequence of calls. */
  lemma {:induction false} RunAgrees(s0: State, base: nat, alloc: Allocator, ops: seq<Op>, targets: set<nat>)
    requires s0 == Fresh(s0.auto, s0.defaultNear, s0.base, s0.maxSize) && PageAligned(s0) && PageAlloc(alloc)
    requires if s0.auto then base % PAGE == 0 else base == s0.base
    requires AllSane(s0.auto, ops, targets)
    ensures Matches(s0, Run(s0, alloc, ops), Layout(ops, base, s0.defaultNear), base)
    ensures var t := Run(s0, alloc, ops); t.Some? ==> Kept(s0, t.value)
    ensures var p := Layout(ops, base, s0.defaultNear); p.Some? ==> NoAbsTo(p.value, s0.auto, targets)
  {
    hide Agree, Acceptable, Step, Place, NoAbsTo, Valid;
    if ops == [] {
      FreshAgrees(s0, base, targets);
    } else {
      var init, op := ops[..|ops| - 1], ops[|ops| - 1];
      RunAgrees(s0, base, alloc, init, targets);
      var t, p := Run(s0, alloc, init), Layout(init, base, s0.defaultNear);
      if p.Some? && Place(p.value, op, base, s0.defaultNear).Some? {
        var q := Place(p.value, op, base, s0.defaultNear).value;
        NoAbsStep(p.value, op, base, s0, targets);
        if q.size <= LIMIT && Acceptable(q, s0, base) {
          PlaceMono(p.value, op, base, s0);
          AcceptableSame(q, s0, t.value, base);
        }
      }
      if t.Some? {
        StepValid(t.value, alloc, op);
        if |t.value.buf| <= LIMIT { StepAgrees(t.value, p.value, base, alloc, op, targets); }
      }
    }
  }

  lemma FreshAgrees(s: State, base: nat, targets: set<nat>)
    requires s == Fresh(s.auto, s.defaultNear, s.base, s.maxSize) && PageAligned(s)
    requires !s.auto ==> base == s.base
    ensures Agree(s, Plan([], 0, map[]), base) && NoAbsTo(Plan([], 0, map[]), s.auto, targets)
  {}

  lemma NoAbsStep(p: Plan, op: Op, base: nat, s: State, targets: set<nat>)
    requires NoAbsTo(p, s.auto, targets) && Sane(s.auto, op, targets)
    ensures var q := Place(p, op, base, s.defaultNear); q.Some? ==> NoAbsTo(q.value, s.auto, targets)
  {
    hide PowerOfTwo, Nops, LE;
  }

  lemma AcceptableSame(p: Plan, s: State, t: State, base: nat)
    requires t.auto == s.auto && (!s.auto ==> t.maxSize == s.maxSize)
    ensures Acceptable(p, s, base) <==> Acceptable(p, t, base)
  {}
}
