/** Where the label engine does not do what one would expect, each with an input and the exact condition. */
module Differences {
  import opened Bytes
  import opened Assembler
  import opened TwoPass
  import opened Refinement

  const JMP := Form(Near, 0xEB, 0xE9, 0)

  lemma RunOne(s: State, alloc: Allocator, ops: seq<Op>, op: Op)
    requires Valid(s) && Run(s, alloc, ops).Some?
    ensures Run(s, alloc, ops + [op]) == Step(Run(s, alloc, ops).value, alloc, op)
  {
    assert (ops + [op])[..|ops|] == ops;
  }

  /** The range check of an absolute jump counts from the start of the instruction: a target just inside the
      lower end is accepted, but the displacement wraps and the jump lands 4 GiB away. */
  lemma EdgeJumpMisses(alloc: Allocator)
    ensures var base, addr := 0x1_0000_0000, 0x8000_0000;
      var b := Assemble(Fresh(false, false, base, 16), alloc, [JumpAbs(addr, JMP)]);
      b.Some? && |b.value| == 5 && base + 5 + Signed(b.value[1..5]) == addr + 0x1_0000_0000
  {
    hide Step, LE, Signed, Range;
    var base, addr := 0x1_0000_0000, 0x8000_0000;
    var s, op := Fresh(false, false, base, 16), JumpAbs(addr, JMP);
    RunOne(s, alloc, [], op);
    EdgeStep(s, alloc, op);
    EdgeField();
    assert [] + [op] == [op];
    assert ([0xE9] + LE(-0x8000_0005, 4))[1..5] == LE(-0x8000_0005, 4);
  }

  lemma EdgeStep(s: State, alloc: Allocator, op: Op)
    requires s == Fresh(false, false, 0x1_0000_0000, 16) && op == JumpAbs(0x8000_0000, JMP)
    ensures Step(s, alloc, op) == Some(s.(buf := [0xE9] + LE(-0x8000_0005, 4)))
  {
    hide Emit, LE;
    EmitSpec(s, alloc, [0xE9] + LE(-0x8000_0005, 4));
    assert [] + ([0xE9] + LE(-0x8000_0005, 4)) == [0xE9] + LE(-0x8000_0005, 4);
  }

  lemma EdgeField()
    ensures Signed(LE(-0x8000_0005, 4)) == 0x7FFF_FFFB
  {
    RangeIs();
    LEWraps(-0x8000_0005, 4);
    hide LE, Signed, Range;
    SignedLE(0x7FFF_FFFB, 4);
  }

  /** An absolute reference that assignL resolves in a fixed buffer gets the current address, not the label's:
      label 2 is at 0x1008, label 1 is assigned from it one byte later, and its reference holds 0x1009. */
  lemma AssignedAddressIsWrong(alloc: Allocator)
    ensures var b := Assemble(Fresh(false, false, 0x1000, 16), alloc, [PutAbs(1), Define(2), Db(0x90), Assign(1, 2)]);
      b.Some? && |b.value| == 9 && Unsigned(b.value[..8]) == 0x1009
  {
    hide Step, Emit, LE, Overwrite;
    var s0, z := Fresh(false, false, 0x1000, 16), LE(0, 8);
    var ops := [PutAbs(1), Define(2), Db(0x90), Assign(1, 2)];
    var s1 := s0.(buf := z, pending := [Ref(1, 8, 8, Abs, 0)]);
    var s2 := s1.(defs := map[2 := 8]);
    var s3 := s2.(buf := z + [0x90]);
    assert ops[..0] + [ops[0]] == ops[..1] && ops[..1] + [ops[1]] == ops[..2] && ops[..2] + [ops[2]] == ops[..3] && ops[..3] + [ops[3]] == ops;
    PutAbsFirst(s0, alloc);
    RunOne(s0, alloc, ops[..0], ops[0]);
    DefineOther(s1, alloc);
    RunOne(s0, alloc, ops[..1], ops[1]);
    assert Step(s2, alloc, Db(0x90)) == Some(s3) by { StepDb(s2, alloc, 0x90); }
    RunOne(s0, alloc, ops[..2], ops[2]);
    AssignLate(s3, alloc);
    RunOne(s0, alloc, ops[..3], ops[3]);
    var b := Overwrite(s3.buf, 0, LE(0x1009, 8));
    OverwriteFront(s3.buf, LE(0x1009, 8));
    assert Range(8) > 0x1009 by { RangeIs(); assert Range(5) >= 0x100 * Range(4); assert Range(6) >= Range(5); assert Range(7) >= Range(6); }
    UnsignedLE(0x1009, 8);
  }

  lemma OverwriteFront(buf: seq<u8>, v: seq<u8>)
    requires |v| <= |buf|
    ensures Overwrite(buf, 0, v)[..|v|] == v
  {}

  lemma StepDb(s: State, alloc: Allocator, b: u8)
    requires Valid(s) && |s.buf| < s.maxSize
    ensures Step(s, alloc, Db(b)) == Some(s.(buf := s.buf + [b]))
  {}

  lemma PutAbsFirst(s: State, alloc: Allocator)
    requires s == Fresh(false, false, 0x1000, 16)
    ensures Step(s, alloc, PutAbs(1)) == Some(s.(buf := LE(0, 8), pending := [Ref(1, 8, 8, Abs, 0)]))
  {
    hide Emit, LE;
    EmitSpec(s, alloc, [] + LE(0, 8));
    assert [] + ([] + LE(0, 8)) == LE(0, 8);
    assert [] + [Ref(1, 8, 8, Abs, 0)] == [Ref(1, 8, 8, Abs, 0)];
  }

  lemma DefineOther(s: State, alloc: Allocator)
    requires Valid(s) && s.defs == map[] && |s.buf| == 8 && s.pending == [Ref(1, 8, 8, Abs, 0)]
    ensures Step(s, alloc, Define(2)) == Some(s.(defs := map[2 := 8]))
  {
    ResolveOther(s.(defs := s.defs[2 := 8], pending := []), 2, 8, s.pending[0]);
    assert [] + s.pending == s.pending;
  }

  lemma AssignLate(s: State, alloc: Allocator)
    requires Valid(s) && !s.auto && s.base == 0x1000 && s.defs == map[2 := 8] && |s.buf| == 9 && s.pending == [Ref(1, 8, 8, Abs, 0)]
    ensures Step(s, alloc, Assign(1, 2))
         == Some(s.(defs := s.defs[1 := 8], pending := [], buf := Overwrite(s.buf, 0, LE(0x1009, 8))))
  {
    hide LE, Overwrite;
    ResolveSelf(s.(defs := s.defs[1 := 8], pending := []), 1, 8, s.pending[0]);
  }

  lemma ResolveOther(s: State, id: nat, offset: nat, r: Ref)
    requires r.id != id && r.size <= r.end <= |s.buf|
    ensures Resolve(s, id, offset, [r]) == Some(s.(pending := s.pending + [r]))
  {
    assert [r][1..] == [];
  }

  lemma ResolveSelf(s: State, id: nat, offset: nat, r: Ref)
    requires r.id == id && r.size <= r.end <= |s.buf| && Fix(s, r, offset).Some?
    ensures Resolve(s, id, offset, [r]) == Fix(s, r, offset)
  {
    assert [r][1..] == [];
    FixValidSize(s, r, offset);
  }

  lemma FixValidSize(s: State, r: Ref, offset: nat)
    requires r.size <= r.end <= |s.buf|
    ensures Fix(s, r, offset).Some? ==> |Fix(s, r, offset).value.buf| == |s.buf|
  {}

  /** With T_AUTO and near jumps as the default, an AutoGrow buffer always takes the long form of an absolute
      jump, a fixed buffer the short one when it reaches: the two sessions then differ. */
  lemma AutoKindDiffers(alloc: Allocator)
    ensures var op := JumpAbs(0x1010, JMP.(kind := Auto));
      var grown, fixed := Assemble(Fresh(true, true, 0x1000, 32), alloc, [op]), Assemble(Fresh(false, true, 0x1000, 32), alloc, [op]);
      grown.Some? && fixed.Some? && |grown.value| == 5 && |fixed.value| == 2
  {
    hide Step, LE;
    var op := JumpAbs(0x1010, JMP.(kind := Auto));
    var g, f := Fresh(true, true, 0x1000, 32), Fresh(false, true, 0x1000, 32);
    assert [] + [op] == [op];
    RunOne(g, alloc, [], op); RunOne(f, alloc, [], op);
    GrownStep(g, alloc); FixedStep(f, alloc);
  }

  lemma GrownStep(s: State, alloc: Allocator)
    requires s == Fresh(true, true, 0x1000, 32)
    ensures Step(s, alloc, JumpAbs(0x1010, JMP.(kind := Auto)))
         == Some(s.(buf := [0xE9] + LE(0, 4), saved := [Patch(1, 0x100B, 4, Abs)]))
  {
    hide Emit, LE;
    EmitSpec(s, alloc, [0xE9] + LE(0, 4));
    assert [] + ([0xE9] + LE(0, 4)) == [0xE9] + LE(0, 4);
    assert [] + [Patch(1, 0x100B, 4, Abs)] == [Patch(1, 0x100B, 4, Abs)];
  }

  lemma FixedStep(s: State, alloc: Allocator)
    requires s == Fresh(false, true, 0x1000, 32)
    ensures Step(s, alloc, JumpAbs(0x1010, JMP.(kind := Auto))) == Some(s.(buf := [0xEB] + LE(14, 1)))
  {
    hide Emit, LE;
    EmitSpec(s, alloc, [0xEB] + LE(14, 1));
    assert [] + ([0xEB] + LE(14, 1)) == [0xEB] + LE(14, 1);
  }

  /** Pending references are in the order of their fields, which do not overlap, and absolute ones have eight bytes and
      nothing to add. */
  ghost predicate Ordered(s: State) {
    && (forall i :: 0 <= i < |s.pending| ==> s.pending[i].size <= s.pending[i].end <= |s.buf|)
    && (forall i, j :: 0 <= i < j < |s.pending| ==> s.pending[i].end <= s.pending[j].end - s.pending[j].size)
    && (forall i :: 0 <= i < |s.pending| && s.pending[i].mode.Abs? ==> s.pending[i].size == 8 && s.pending[i].disp == 0)
  }

  /** Keeping some of the references keeps their order. */
  lemma {:induction false} ResolveKeepsOrder(s: State, id: nat, offset: nat, todo: seq<Ref>)
    requires Ordered(s.(pending := s.pending + todo))
    requires forall i :: 0 <= i < |todo| ==> todo[i].size <= todo[i].end <= |s.buf|
    ensures var t := Resolve(s, id, offset, todo); t.Some? ==> Ordered(t.value) && |t.value.buf| == |s.buf|
    decreases |todo|
  {
    hide Fix;
    if todo == [] { assert s.pending + [] == s.pending; }
    else {
      var r, rest := todo[0], todo[1..];
      assert s.pending + [r] + rest == s.pending + todo;
      if r.id != id {
        ResolveKeepsOrder(s.(pending := s.pending + [r]), id, offset, rest);
      } else {
        var t := Fix(s, r, offset);
        FixKeeps(s, r, offset);
        DropOne(s, r, rest);
        if t.Some? { ResolveKeepsOrder(t.value, id, offset, rest); }
      }
    }
  }

  lemma FixKeeps(s: State, r: Ref, offset: nat)
    requires r.size <= r.end <= |s.buf|
    ensures Fix(s, r, offset).Some? ==>
      |Fix(s, r, offset).value.buf| == |s.buf| && Fix(s, r, offset).value.pending == s.pending
      && Fix(s, r, offset).value.base == s.base && Fix(s, r, offset).value.auto == s.auto
  {}

  lemma DropOne(s: State, r: Ref, rest: seq<Ref>)
    requires Ordered(s.(pending := s.pending + [r] + rest))
    ensures Ordered(s.(pending := s.pending + rest))
  {
    var a, b, n := s.pending + [r] + rest, s.pending + rest, |s.pending|;
    forall i | 0 <= i < |b|
      ensures b[i].size <= b[i].end <= |s.buf| && (b[i].mode.Abs? ==> b[i].size == 8 && b[i].disp == 0)
    {
      assert b[i] == if i < n then a[i] else a[i + 1];
    }
    forall i, j | 0 <= i < j < |b| ensures b[i].end <= b[j].end - b[j].size {
      assert b[i] == if i < n then a[i] else a[i + 1];
      assert b[j] == if j < n then a[j] else a[j + 1];
    }
  }

  /** What every call keeps. */
  lemma StepKeepsOrder(s: State, alloc: Allocator, op: Op)
    requires Valid(s) && Ordered(s)
    ensures Step(s, alloc, op).Some? ==> Ordered(Step(s, alloc, op).value)
  {
    hide Emit, EmitByte, Resolve, Nops, PowerOfTwo, LE;
    match op
    case Define(id) => DefineKeepsOrder(s, id, |s.buf|);
    case Assign(dst, src) => if src in s.defs { DefineKeepsOrder(s, dst, s.defs[src]); }
    case Db(b) => EmitOne(s, alloc, b); EmitKeepsOrder(s, alloc, [b]);
    case Jump(id, f) => JumpKeepsOrder(s, alloc, id, f);
    case PutRel(id, disp) => PutKeepsOrder(s, alloc, id, disp);
    case PutAbs(id) => PutKeepsOrder(s, alloc, id, 0);
    case JumpAbs(addr, f) => JumpAbsKeepsOrder(s, alloc, addr, f);
    case Align(x, m) => if x > 0 { EmitKeepsOrder(s, alloc, Nops(Padding(s.base + |s.buf|, x), m)); }
  }

  lemma DefineKeepsOrder(s: State, id: nat, offset: nat)
    requires Valid(s) && Ordered(s)
    ensures Define_(s, id, offset).Some? ==> Ordered(Define_(s, id, offset).value)
  {
    var v := s.(defs := s.defs[id := offset]);
    var u := v.(pending := []);
    SameOrder(s, v);
    hide Resolve, Ordered;
    assert [] + s.pending == s.pending;
    assert u.(pending := u.pending + s.pending) == v;
    ResolveKeepsOrder(u, id, offset, s.pending);
  }

  lemma SameOrder(s: State, t: State)
    requires Ordered(s) && t.pending == s.pending && t.buf == s.buf
    ensures Ordered(t)
  {}

  lemma EmitKeepsOrder(s: State, alloc: Allocator, bs: seq<u8>)
    requires Ordered(s)
    ensures Emit(s, alloc, bs).Some? ==> Ordered(Emit(s, alloc, bs).value)
  {
    EmitSpec(s, alloc, bs);
  }

  lemma MarginKeepsOrder(s: State, alloc: Allocator)
    requires Ordered(s)
    ensures Ordered(Margin(s, alloc))
  {}

  lemma RefKeepsOrder(s: State, alloc: Allocator, head: seq<u8>, id: nat, size: nat, mode: Mode, disp: int)
    requires Ordered(s) && (mode.Abs? ==> size == 8 && disp == 0)
    ensures var t := EmitRef(s, alloc, head, id, size, mode, disp); t.Some? ==> Ordered(t.value)
  {
    hide LE, Emit;
    EmitSpec(s, alloc, head + LE(0, size));
  }

  lemma PatchKeepsOrder(s: State, alloc: Allocator, head: seq<u8>, value: int, size: nat, mode: Mode)
    requires Ordered(s)
    ensures var t := EmitPatch(s, alloc, head, value, size, mode); t.Some? ==> Ordered(t.value)
  {
    hide LE, Emit;
    EmitSpec(s, alloc, head + LE(0, size));
  }

  lemma JumpKeepsOrder(s: State, alloc: Allocator, id: nat, f: Form)
    requires Ordered(s)
    ensures Jump_(s, alloc, id, f).Some? ==> Ordered(Jump_(s, alloc, id, f).value)
  {
    hide Ordered, Emit, EmitRef, LE;
    var m := Margin(s, alloc);
    MarginKeepsOrder(s, alloc);
    RefKeepsOrder(m, alloc, f.LongHead(), id, 4, AsIs, 0);
    RefKeepsOrder(m, alloc, [f.shortCode], id, 1, AsIs, 0);
    if id in m.defs && MakeJmp(m.defs[id] - |m.buf|, f).Some? { EmitKeepsOrder(m, alloc, MakeJmp(m.defs[id] - |m.buf|, f).value); }
  }

  lemma PutKeepsOrder(s: State, alloc: Allocator, id: nat, disp: int)
    requires Ordered(s)
    ensures PutRel_(s, alloc, id, disp).Some? ==> Ordered(PutRel_(s, alloc, id, disp).value)
    ensures PutAbs_(s, alloc, id).Some? ==> Ordered(PutAbs_(s, alloc, id).value)
  {
    hide Ordered, Emit, EmitRef, EmitPatch, LE;
    var m := Margin(s, alloc);
    MarginKeepsOrder(s, alloc);
    RefKeepsOrder(m, alloc, [], id, 4, AsIs, disp);
    RefKeepsOrder(m, alloc, [], id, 8, if m.auto then AddTop else Abs, 0);
    if id in m.defs {
      EmitKeepsOrder(m, alloc, LE(m.defs[id] + disp - |m.buf| - 4, 4));
      EmitKeepsOrder(m, alloc, LE(m.base + m.defs[id], 8));
      PatchKeepsOrder(m, alloc, [], m.defs[id], 8, AddTop);
    }
  }

  lemma JumpAbsKeepsOrder(s: State, alloc: Allocator, addr: nat, f: Form)
    requires Ordered(s)
    ensures JumpAbs_(s, alloc, addr, f).Some? ==> Ordered(JumpAbs_(s, alloc, addr, f).value)
  {
    hide Ordered, Emit, EmitPatch, LE;
    var m := Margin(s, alloc);
    MarginKeepsOrder(s, alloc);
    PatchKeepsOrder(m, alloc, f.LongHead(), addr - (|m.buf| + |f.LongHead()| + 4), 4, Abs);
    var d := addr - (s.base + |s.buf|);
    if MakeJmp(d, f).Some? { EmitKeepsOrder(s, alloc, MakeJmp(d, f).value); }
  }

  lemma {:induction false} RunKeepsOrder(s: State, alloc: Allocator, ops: seq<Op>)
    requires Valid(s) && Ordered(s)
    ensures Run(s, alloc, ops).Some? ==> Ordered(Run(s, alloc, ops).value)
    decreases |ops|
  {
    hide Ordered, Step;
    if ops != [] {
      RunKeepsOrder(s, alloc, ops[..|ops| - 1]);
      var t := Run(s, alloc, ops[..|ops| - 1]);
      if t.Some? { StepKeepsOrder(t.value, alloc, ops[|ops| - 1]); }
    }
  }

  /** In a fixed buffer every reference to the label is written with its value, and bytes outside the fields stay. */
  lemma {:induction false} ResolveWrites(s: State, id: nat, offset: nat, todo: seq<Ref>, i: nat)
    requires !s.auto && i < |todo| && todo[i].id == id
    requires forall k :: 0 <= k < |todo| ==> todo[k].size <= todo[k].end <= |s.buf|
    requires forall k, j :: 0 <= k < j < |todo| ==> todo[k].end <= todo[j].end - todo[j].size
    requires Resolve(s, id, offset, todo).Some?
    ensures var t := Resolve(s, id, offset, todo).value; var r := todo[i];
      |t.buf| == |s.buf| && RefValue(s, r, offset).Some?
      && t.buf[r.end - r.size..r.end] == LE(RefValue(s, r, offset).value, r.size)
    decreases |todo|
  {
    hide LE, RefValue, Overwrite;
    var r, rest := todo[0], todo[1..];
    if r.id != id {
      var s' := s.(pending := s.pending + [r]);
      ResolveWrites(s', id, offset, rest, i - 1);
      RefValueSame(s, s', todo[i], offset);
    } else {
      var t := Fix(s, r, offset).value;
      FixedField(s, r, offset);
      if i == 0 { ResolveLeaves(t, id, offset, rest, r.end - r.size, r.end); }
      else {
        ResolveWrites(t, id, offset, rest, i - 1);
        RefValueSame(s, t, todo[i], offset);
      }
    }
  }

  lemma RefValueSame(s: State, t: State, r: Ref, offset: nat)
    requires s.base == t.base && |s.buf| == |t.buf|
    ensures RefValue(s, r, offset) == RefValue(t, r, offset)
  {}

  lemma FixedField(s: State, r: Ref, offset: nat)
    requires !s.auto && r.size <= r.end <= |s.buf| && Fix(s, r, offset).Some?
    ensures var t := Fix(s, r, offset).value;
      && |t.buf| == |s.buf| && t.base == s.base && !t.auto && RefValue(s, r, offset).Some?
      && t.buf[r.end - r.size..r.end] == LE(RefValue(s, r, offset).value, r.size)
      && forall k :: 0 <= k < |s.buf| && !(r.end - r.size <= k < r.end) ==> t.buf[k] == s.buf[k]
  {
    hide RefValue, LE;
  }

  /** A stretch of bytes before all fields is left alone. */
  lemma {:induction false} ResolveLeaves(s: State, id: nat, offset: nat, todo: seq<Ref>, a: nat, b: nat)
    requires !s.auto && a <= b <= |s.buf| && forall k :: 0 <= k < |todo| ==> todo[k].size <= todo[k].end <= |s.buf|
    requires forall k :: 0 <= k < |todo| ==> b <= todo[k].end - todo[k].size
    requires Resolve(s, id, offset, todo).Some?
    ensures var t := Resolve(s, id, offset, todo).value; |t.buf| == |s.buf| && t.buf[a..b] == s.buf[a..b]
    decreases |todo|
  {
    hide LE, RefValue;
    if todo != [] {
      var r, rest := todo[0], todo[1..];
      if r.id != id { ResolveLeaves(s.(pending := s.pending + [r]), id, offset, rest, a, b); }
      else {
        FixedField(s, r, offset);
        var t := Fix(s, r, offset).value;
        ResolveLeaves(t, id, offset, rest, a, b);
        assert t.buf[a..b] == s.buf[a..b];
      }
    }
  }

  /** After any calls to a fixed buffer: an absolute reference that assignL(dst, src) resolves holds the address of the
      label if and only if src was defined at the current position. */
  lemma AssignedAddressIs(base: nat, maxSize: nat, defaultNear: bool, alloc: Allocator, ops: seq<Op>, dst: nat, src: nat, i: nat)
    requires Run(Fresh(false, defaultNear, base, maxSize), alloc, ops).Some?
    requires var s := Run(Fresh(false, defaultNear, base, maxSize), alloc, ops).value;
      && i < |s.pending| && s.pending[i].id == dst && s.pending[i].mode.Abs? && base + maxSize < Range(8)
      && Step(s, alloc, Assign(dst, src)).Some?
    ensures var s := Run(Fresh(false, defaultNear, base, maxSize), alloc, ops).value;
      var t, r := Step(s, alloc, Assign(dst, src)).value, s.pending[i];
      && src in s.defs && 8 <= r.end <= |t.buf| && Unsigned(t.buf[r.end - 8..r.end]) == base + |s.buf|
      && (Unsigned(t.buf[r.end - 8..r.end]) == base + s.defs[src] <==> s.defs[src] == |s.buf|)
  {
    hide Step, LE, Unsigned, Range, Ordered;
    var s0 := Fresh(false, defaultNear, base, maxSize);
    FreshOrdered(false, defaultNear, base, maxSize);
    RunKeepsOrder(s0, alloc, ops);
    AssignedStep(Run(s0, alloc, ops).value, alloc, dst, src, i);
  }

  lemma FreshOrdered(auto: bool, defaultNear: bool, base: nat, maxSize: nat)
    ensures Ordered(Fresh(auto, defaultNear, base, maxSize))
  {}

  lemma AssignedStep(s: State, alloc: Allocator, dst: nat, src: nat, i: nat)
    requires Valid(s) && Ordered(s) && !s.auto && Step(s, alloc, Assign(dst, src)).Some? && s.base + |s.buf| < Range(8)
    requires i < |s.pending| && s.pending[i].id == dst && s.pending[i].mode.Abs?
    ensures var t, r := Step(s, alloc, Assign(dst, src)).value, s.pending[i];
      && src in s.defs && 8 <= r.end <= |t.buf| && Unsigned(t.buf[r.end - 8..r.end]) == s.base + |s.buf|
  {
    hide LE, Unsigned, Range;
    var u := s.(defs := s.defs[dst := s.defs[src]], pending := []);
    ResolveWrites(u, dst, s.defs[src], s.pending, i);
    UnsignedLE(s.base + |s.buf|, 8);
  }

  /** In a growing buffer T_AUTO is the near form when that is the default. */
  lemma AutoKindGrows(s: State, alloc: Allocator, addr: nat, f: Form)
    requires s.auto && s.defaultNear && f.kind.Auto?
    ensures JumpAbs_(s, alloc, addr, f) == JumpAbs_(s, alloc, addr, f.(kind := Near))
  {}

  /** In a fixed buffer it is so if and only if the target is out of reach of the short form. */
  lemma AutoKindIs(s: State, alloc: Allocator, addr: nat, f: Form)
    requires !s.auto && f.kind.Auto? && JumpAbs_(s, alloc, addr, f.(kind := Near)).Some?
    ensures JumpAbs_(s, alloc, addr, f) == JumpAbs_(s, alloc, addr, f.(kind := Near)) <==> !InInt8(addr - (s.base + |s.buf| + 2))
  {
    hide LE, Emit;
    var d := addr - (s.base + |s.buf|);
    EmitSpec(s, alloc, [f.shortCode] + LE(d - 2, 1));
    EmitSpec(s, alloc, f.LongHead() + LE(d - |f.LongHead()| - 4, 4));
  }

  function Nearer(op: Op): Op {
    if op.JumpAbs? && op.form.kind.Auto? then op.(form := op.form.(kind := Near)) else op
  }

  /** Whole sessions in a growing buffer: T_AUTO might as well be T_NEAR. */
  lemma {:induction false} GrownIsNear(s: State, alloc: Allocator, ops: seq<Op>, near: seq<Op>)
    requires Valid(s) && s.auto && s.defaultNear && |near| == |ops| && forall i :: 0 <= i < |ops| ==> near[i] == Nearer(ops[i])
    ensures Run(s, alloc, near) == Run(s, alloc, ops)
    decreases |ops|
  {
    hide JumpAbs_, Jump_, Define_, PutRel_, PutAbs_, Align_, EmitByte;
    if ops != [] {
      var init, op := ops[..|ops| - 1], ops[|ops| - 1];
      GrownIsNear(s, alloc, init, near[..|near| - 1]);
      var t := Run(s, alloc, init);
      if t.Some? && op.JumpAbs? && op.form.kind.Auto? {
        DefaultStays(s, alloc, init);
        AutoKindGrows(t.value, alloc, op.addr, op.form);
      }
    }
  }

  lemma {:induction false} DefaultStays(s: State, alloc: Allocator, ops: seq<Op>)
    requires Valid(s) && Run(s, alloc, ops).Some?
    ensures Run(s, alloc, ops).value.auto == s.auto && Run(s, alloc, ops).value.defaultNear == s.defaultNear
  {
    hide Run;
  }
}
