/** xbyak/xbyak.h: the code buffer, label references and their fix-ups, as a state machine over the calls a
    client makes. The class in CodeGenerator.dfy carries these steps out in place. */
module Assembler {
  import opened Bytes

  datatype LabelType = Short | Near | Far | Auto

  /** How a jump is encoded: one-byte and four-byte displacement forms; longPref 0 means no prefix byte. */
  datatype Form = Form(kind: LabelType, shortCode: u8, longCode: u8, longPref: u8) {
    function LongHead(): (h: seq<u8>)
      ensures 1 <= |h| <= 2
    {
      if longPref != 0 then [longPref, longCode] else [longCode]
    }
  }

  /** The calls of a client. Labels are named by their ids. */
  datatype Op =
    | Db(byte: u8)
    | Define(id: nat)                  // L(label)
    | Assign(dst: nat, src: nat)       // assignL(dst, src)
    | Jump(id: nat, form: Form)        // opJmp
    | PutRel(id: nat, disp: int)       // putL_inner(label, true, disp), the displacement of [rip + label + disp]
    | PutAbs(id: nat)                  // putL(label), an 8-byte address
    | JumpAbs(addr: nat, form: Form)   // opJmpAbs
    | Align(x: nat, multiByte: nat)

  datatype Mode = AsIs | Abs | AddTop

  /** A reference to a label that has no offset yet, and a patch that waits for the final base address. */
  datatype Ref = Ref(id: nat, end: nat, size: nat, mode: Mode, disp: int)
  datatype Patch = Patch(offset: nat, value: int, size: nat, mode: Mode)

  datatype State = State(auto: bool, defaultNear: bool, base: nat, maxSize: nat, buf: seq<u8>,
                         defs: map<nat, nat>, pending: seq<Ref>, saved: seq<Patch>, grown: nat)

  /** The base address that the n-th growth of an AutoGrow buffer is given. */
  type Allocator = nat -> nat

  const PAGE: nat := 4096

  function Grow(s: State, alloc: Allocator): State {
    s.(maxSize := if 2 * s.maxSize < 4096 then 4096 else 2 * s.maxSize, base := alloc(s.grown), grown := s.grown + 1)
  }

  function EmitByte(s: State, alloc: Allocator, b: u8): Option<State> {
    if |s.buf| < s.maxSize then Some(s.(buf := s.buf + [b]))
    else if s.auto then Some(Grow(s, alloc).(buf := s.buf + [b]))
    else None
  }

  function Emit(s: State, alloc: Allocator, bs: seq<u8>): (t: Option<State>)
    ensures t.Some? ==> |t.value.buf| == |s.buf| + |bs|
    decreases |bs|
  {
    if bs == [] then Some(s)
    else
      var t :- EmitByte(s, alloc, bs[0]);
      Emit(t, alloc, bs[1..])
  }

  /** An AutoGrow buffer grows before an instruction that must not be split. */
  function Margin(s: State, alloc: Allocator): State {
    if s.auto && |s.buf| + 16 >= s.maxSize then Grow(s, alloc) else s
  }

  predicate InInt32(v: int) {
    -0x8000_0000 <= v < 0x8000_0000
  }

  predicate InInt8(v: int) {
    -0x80 <= v < 0x80
  }

  predicate IsNear(s: State, kind: LabelType) {
    kind.Near? || (kind.Auto? && s.defaultNear)
  }

  /** makeJmp: the displacement is counted from the start of the instruction. */
  function MakeJmp(disp: int, f: Form): Option<seq<u8>> {
    if !f.kind.Near? && InInt8(disp - 2) then Some([f.shortCode] + LE(disp - 2, 1))
    else if f.kind.Short? then None
    else Some(f.LongHead() + LE(disp - |f.LongHead()| - 4, 4))
  }

  /** Zeros for a value that is not known yet, recorded as a reference to the label. */
  function EmitRef(s: State, alloc: Allocator, head: seq<u8>, id: nat, size: nat, mode: Mode, disp: int): Option<State> {
    var t :- Emit(s, alloc, head + LE(0, size));
    Some(t.(pending := t.pending + [Ref(id, |s.buf| + |head| + size, size, mode, disp)]))
  }

  /** Zeros for a value that depends on the final base address, recorded as a saved patch. */
  function EmitPatch(s: State, alloc: Allocator, head: seq<u8>, value: int, size: nat, mode: Mode): Option<State> {
    var t :- Emit(s, alloc, head + LE(0, size));
    Some(t.(saved := t.saved + [Patch(|s.buf| + |head|, value, size, mode)]))
  }

  function Jump_(s0: State, alloc: Allocator, id: nat, f: Form): Option<State> {
    if f.kind.Far? then None else
    var s := Margin(s0, alloc);
    if id in s.defs then
      var disp := s.defs[id] - |s.buf|;
      if !InInt32(disp) then None else
      var bs :- MakeJmp(disp, f);
      Emit(s, alloc, bs)
    else if IsNear(s, f.kind) then
      EmitRef(s, alloc, f.LongHead(), id, 4, AsIs, 0)
    else
      EmitRef(s, alloc, [f.shortCode], id, 1, AsIs, 0)
  }

  function PutRel_(s0: State, alloc: Allocator, id: nat, disp: int): Option<State> {
    var s := Margin(s0, alloc);
    if id in s.defs then
      var v := s.defs[id] + disp - |s.buf| - 4;
      if InInt32(v) then Emit(s, alloc, LE(v, 4)) else None
    else
      EmitRef(s, alloc, [], id, 4, AsIs, disp)
  }

  function PutAbs_(s0: State, alloc: Allocator, id: nat): Option<State> {
    var s := Margin(s0, alloc);
    if id in s.defs then
      if s.auto then
        EmitPatch(s, alloc, [], s.defs[id], 8, AddTop)
      else
        Emit(s, alloc, LE(s.base + s.defs[id], 8))
    else
      EmitRef(s, alloc, [], id, 8, if s.auto then AddTop else Abs, 0)
  }

  function JumpAbs_(s0: State, alloc: Allocator, addr: nat, f: Form): Option<State> {
    if f.kind.Far? then None
    else if s0.auto then
      if !IsNear(s0, f.kind) then None else
      var s := Margin(s0, alloc);
      EmitPatch(s, alloc, f.LongHead(), addr - (|s.buf| + |f.LongHead()| + 4), 4, Abs)
    else
      var disp := addr - (s0.base + |s0.buf|);
      if !InInt32(disp) then None else
      var bs :- MakeJmp(disp, f);
      Emit(s0, alloc, bs)
  }

  /** One row of the multi-byte nop table. */
  function NopRow(len: nat): (bs: seq<u8>)
    requires 1 <= len <= 15
    ensures |bs| == len
  {
    if len == 1 then [0x90]
    else if len == 2 then [0x66, 0x90]
    else if len == 3 then [0x0F, 0x1F, 0x00]
    else if len == 4 then [0x0F, 0x1F, 0x40, 0x00]
    else if len == 5 then [0x0F, 0x1F, 0x44, 0x00, 0x00]
    else if len == 6 then [0x66, 0x0F, 0x1F, 0x44, 0x00, 0x00]
    else if len == 7 then [0x0F, 0x1F, 0x80, 0x00, 0x00, 0x00, 0x00]
    else if len == 8 then [0x0F, 0x1F, 0x84, 0x00, 0x00, 0x00, 0x00, 0x00]
    else [0x66] + NopRow(len - 1)
  }

  function Nops(size: nat, multiByte: nat): (bs: seq<u8>)
    ensures |bs| == size
  {
    if size == 0 then []
    else if multiByte == 0 then [0x90] + Nops(size - 1, multiByte)
    else
      var n := if multiByte == 2 then 15 else 9;
      var len := if size < n then size else n;
      NopRow(len) + Nops(size - len, multiByte)
  }

  predicate PowerOfTwo(x: nat) {
    x == 1 || (x > 0 && x % 2 == 0 && PowerOfTwo(x / 2))
  }

  function Padding(pos: nat, x: nat): nat
    requires 0 < x
  {
    if pos % x == 0 then 0 else x - pos % x
  }

  function Align_(s: State, alloc: Allocator, x: nat, multiByte: nat): Option<State> {
    if x == 1 then Some(s)
    else if x < 1 || !PowerOfTwo(x) then None
    else if s.auto && PAGE % x != 0 then None
    else Emit(s, alloc, Nops(Padding(s.base + |s.buf|, x), multiByte))
  }

  function Overwrite(buf: seq<u8>, offset: nat, bs: seq<u8>): (r: seq<u8>)
    requires offset + |bs| <= |buf|
    ensures |r| == |buf|
  {
    buf[..offset] + bs + buf[offset + |bs|..]
  }

  predicate Valid(s: State) {
    && (s.auto || |s.buf| <= s.maxSize)
    && (forall i :: 0 <= i < |s.pending| ==> s.pending[i].size <= s.pending[i].end <= |s.buf|)
    && (forall i :: 0 <= i < |s.saved| ==> s.saved[i].offset + s.saved[i].size <= |s.buf|)
  }

  /** The value written for a reference once its label is at `offset`; None if it does not fit. */
  function RefValue(s: State, r: Ref, offset: nat): Option<int> {
    match r.mode
    case AddTop => Some(offset + r.disp)
    case Abs => Some(s.base + |s.buf| + r.disp)
    case AsIs =>
      var v := offset - r.end + r.disp;
      if r.size <= 4 && !InInt32(v) then None
      else if r.size == 1 && !InInt8(v) then None
      else Some(v)
  }

  /** Fixes one reference: at once in a fixed buffer, by a saved patch in an AutoGrow buffer. */
  function Fix(s: State, r: Ref, offset: nat): Option<State>
    requires r.size <= r.end <= |s.buf|
  {
    var v :- RefValue(s, r, offset);
    if s.auto then Some(s.(saved := s.saved + [Patch(r.end - r.size, v, r.size, r.mode)]))
    else Some(s.(buf := Overwrite(s.buf, r.end - r.size, LE(v, r.size))))
  }

  /** Fixes the references in todo that are to this label and keeps the others pending. */
  function Resolve(s: State, id: nat, offset: nat, todo: seq<Ref>): (t: Option<State>)
    requires forall i :: 0 <= i < |todo| ==> todo[i].size <= todo[i].end <= |s.buf|
    decreases |todo|
  {
    if todo == [] then Some(s)
    else
      var r := todo[0];
      if r.id != id then Resolve(s.(pending := s.pending + [r]), id, offset, todo[1..])
      else
        var t :- Fix(s, r, offset);
        Resolve(t, id, offset, todo[1..])
  }

  /** define_inner */
  function Define_(s: State, id: nat, offset: nat): Option<State>
    requires Valid(s)
  {
    if id in s.defs then None
    else Resolve(s.(defs := s.defs[id := offset], pending := []), id, offset, s.pending)
  }

  function Step(s: State, alloc: Allocator, op: Op): Option<State>
    requires Valid(s)
  {
    match op
    case Db(b) => EmitByte(s, alloc, b)
    case Define(id) => Define_(s, id, |s.buf|)
    case Assign(dst, src) => if src in s.defs then Define_(s, dst, s.defs[src]) else None
    case Jump(id, f) => Jump_(s, alloc, id, f)
    case PutRel(id, disp) => PutRel_(s, alloc, id, disp)
    case PutAbs(id) => PutAbs_(s, alloc, id)
    case JumpAbs(addr, f) => JumpAbs_(s, alloc, addr, f)
    case Align(x, m) => Align_(s, alloc, x, m)
  }

  lemma {:induction false} EmitSpec(s: State, alloc: Allocator, bs: seq<u8>)
    ensures var t := Emit(s, alloc, bs);
      && (t.Some? <==> s.auto || bs == [] || |s.buf| + |bs| <= s.maxSize)
      && (t.Some? ==>
        && t.value == s.(buf := s.buf + bs, base := t.value.base, maxSize := t.value.maxSize, grown := t.value.grown)
        && (!s.auto || |s.buf| + |bs| <= s.maxSize ==> t.value == s.(buf := s.buf + bs)))
      && (t.Some? && PageAligned(s) && PageAlloc(alloc) ==> PageAligned(t.value))
    decreases |bs|
  {
    if bs == [] { assert s.buf + bs == s.buf; }
    else {
      var t := EmitByte(s, alloc, bs[0]);
      if t.Some? { EmitSpec(t.value, alloc, bs[1..]); assert s.buf + [bs[0]] + bs[1..] == s.buf + bs; }
    }
  }

  /** The range checks are exact: the field reads back as the value if and only if they hold. */
  lemma RangesMean(v: int)
    ensures InInt8(v) <==> Signed(LE(v, 1)) == v
    ensures InInt32(v) <==> Signed(LE(v, 4)) == v
  {
    RangeIs();
    if InInt8(v) { SignedLE(v, 1); }
    if InInt32(v) { SignedLE(v, 4); }
    hide LE, Signed;
    SignedInRange(LE(v, 1));
    SignedInRange(LE(v, 4));
  }

  lemma SignedInRange(bs: seq<u8>)
    requires |bs| in {1, 4}
    ensures if |bs| == 4 then InInt32(Signed(bs)) else InInt8(Signed(bs))
  {
    RangeIs();
  }

  /** t is m with at most 16 more bytes, and neither grown nor moved. */
  predicate Unmoved(m: State, t: Option<State>) {
    t.Some? ==> t.value.base == m.base && t.value.grown == m.grown && t.value.maxSize == m.maxSize && |t.value.buf| <= |m.buf| + 16
  }

  lemma FitsWhole(m: State, alloc: Allocator, head: seq<u8>, id: nat, n: nat, mode: Mode, v: int)
    requires |m.buf| + 16 < m.maxSize && |head| + n <= 16
    ensures Unmoved(m, Emit(m, alloc, head)) && Unmoved(m, EmitRef(m, alloc, head, id, n, mode, v)) && Unmoved(m, EmitPatch(m, alloc, head, v, n, mode))
  {
    hide LE, Emit;
    EmitSpec(m, alloc, head);
    EmitSpec(m, alloc, head + LE(0, n));
  }

  /** A growing buffer never grows inside a jump or a label field: more than 16 bytes are left when it begins. */
  lemma NeverSplit(s: State, alloc: Allocator, op: Op)
    requires Valid(s) && s.auto && |s.buf| <= s.maxSize && (op.Jump? || op.PutRel? || op.PutAbs? || op.JumpAbs?)
    ensures var m := Margin(s, alloc); |m.buf| + 16 < m.maxSize && m.grown <= s.grown + 1 && Unmoved(m, Step(s, alloc, op))
  {
    var m := Margin(s, alloc);
    assert |m.buf| + 16 < m.maxSize && m.auto;
    hide Margin, Unmoved, Jump_, PutRel_, PutAbs_, JumpAbs_, Emit;
    match op
    case Jump(id, f) => JumpFits(s, alloc, id, f);
    case PutRel(id, disp) => PutFits(s, alloc, id, disp);
    case PutAbs(id) => PutFits(s, alloc, id, 0);
    case JumpAbs(addr, f) => JumpAbsFits(s, alloc, addr, f);
    case _ =>
  }

  lemma JumpFits(s: State, alloc: Allocator, id: nat, f: Form)
    requires s.auto && |Margin(s, alloc).buf| + 16 < Margin(s, alloc).maxSize
    ensures Unmoved(Margin(s, alloc), Jump_(s, alloc, id, f))
  {
    var m := Margin(s, alloc);
    hide LE, Emit, EmitRef, EmitPatch, Margin, Unmoved, MakeJmp, Form.LongHead;
    FitsWhole(m, alloc, f.LongHead(), id, 4, AsIs, 0);
    FitsWhole(m, alloc, [f.shortCode], id, 1, AsIs, 0);
    if id in m.defs {
      MadeShort(m.defs[id] - |m.buf|, f);
      var bs := MakeJmp(m.defs[id] - |m.buf|, f);
      if bs.Some? { FitsWhole(m, alloc, bs.value, id, 0, AsIs, 0); }
    }
    Unmoves(m);
  }

  lemma PutFits(s: State, alloc: Allocator, id: nat, disp: int)
    requires s.auto && |Margin(s, alloc).buf| + 16 < Margin(s, alloc).maxSize
    ensures Unmoved(Margin(s, alloc), PutRel_(s, alloc, id, disp)) && Unmoved(Margin(s, alloc), PutAbs_(s, alloc, id))
  {
    var m := Margin(s, alloc);
    assert m.auto;
    hide LE, Emit, EmitRef, EmitPatch, Margin, Unmoved;
    FitsWhole(m, alloc, [], id, 4, AsIs, disp);
    FitsWhole(m, alloc, [], id, 8, AddTop, 0);
    if id in m.defs {
      FitsWhole(m, alloc, LE(m.defs[id] + disp - |m.buf| - 4, 4), id, 0, AsIs, 0);
      FitsWhole(m, alloc, [], id, 8, AddTop, m.defs[id]);
    }
    Unmoves(m);
  }

  lemma JumpAbsFits(s: State, alloc: Allocator, addr: nat, f: Form)
    requires s.auto && |Margin(s, alloc).buf| + 16 < Margin(s, alloc).maxSize
    ensures Unmoved(Margin(s, alloc), JumpAbs_(s, alloc, addr, f))
  {
    var m := Margin(s, alloc);
    hide LE, Emit, EmitRef, EmitPatch, Margin, Unmoved, Form.LongHead;
    FitsWhole(m, alloc, f.LongHead(), 0, 4, Abs, addr - (|m.buf| + |f.LongHead()| + 4));
    Unmoves(m);
  }

  lemma Unmoves(m: State)
    ensures Unmoved(m, None)
  {}

  lemma MadeShort(disp: int, f: Form)
    ensures MakeJmp(disp, f).Some? ==> |MakeJmp(disp, f).value| <= 6
  {
    hide LE;
  }

  predicate PageAligned(s: State) {
    s.auto ==> s.base % PAGE == 0
  }

  ghost predicate PageAlloc(alloc: Allocator) {
    forall n :: alloc(n) % PAGE == 0
  }

  lemma {:induction false} ResolveValid(s: State, id: nat, offset: nat, todo: seq<Ref>)
    requires Valid(s) && forall i :: 0 <= i < |todo| ==> todo[i].size <= todo[i].end <= |s.buf|
    ensures var t := Resolve(s, id, offset, todo);
      t.Some? ==>
        && Valid(t.value) && |t.value.buf| == |s.buf|
        && t.value == s.(buf := t.value.buf, pending := t.value.pending, saved := t.value.saved)
    decreases |todo|
  {
    if todo != [] {
      var r := todo[0];
      if r.id != id { ResolveValid(s.(pending := s.pending + [r]), id, offset, todo[1..]); }
      else {
        var t := Fix(s, r, offset);
        if t.Some? { ResolveValid(t.value, id, offset, todo[1..]); }
      }
    }
  }

  /** A step never loses bytes, and a fixed buffer keeps its place and size. */
  predicate Kept(s: State, t: State) {
    && Valid(t) && |s.buf| <= |t.buf| && t.auto == s.auto && t.defaultNear == s.defaultNear
    && (!s.auto ==> t.base == s.base && t.maxSize == s.maxSize)
  }

  lemma EmitValid(s: State, alloc: Allocator, bs: seq<u8>)
    requires Valid(s)
    ensures var t := Emit(s, alloc, bs); t.Some? ==> Kept(s, t.value)
  {
    EmitSpec(s, alloc, bs);
  }

  lemma EmitRefValid(s: State, alloc: Allocator, head: seq<u8>, id: nat, size: nat, mode: Mode, disp: int)
    requires Valid(s)
    ensures var t := EmitRef(s, alloc, head, id, size, mode, disp); t.Some? ==> Kept(s, t.value)
  {
    EmitSpec(s, alloc, head + LE(0, size));
  }

  lemma EmitPatchValid(s: State, alloc: Allocator, head: seq<u8>, value: int, size: nat, mode: Mode)
    requires Valid(s)
    ensures var t := EmitPatch(s, alloc, head, value, size, mode); t.Some? ==> Kept(s, t.value)
  {
    EmitSpec(s, alloc, head + LE(0, size));
  }

  lemma DefineValid(s: State, id: nat, offset: nat)
    requires Valid(s)
    ensures var t := Define_(s, id, offset); t.Some? ==> Kept(s, t.value)
  {
    if id !in s.defs { ResolveValid(s.(defs := s.defs[id := offset], pending := []), id, offset, s.pending); }
  }

  lemma JumpValid(s: State, alloc: Allocator, id: nat, f: Form)
    requires Valid(s)
    ensures var t := Jump_(s, alloc, id, f); t.Some? ==> Kept(s, t.value)
  {
    hide Emit, EmitRef;
    var m := Margin(s, alloc);
    if id in m.defs {
      var bs := MakeJmp(m.defs[id] - |m.buf|, f);
      if bs.Some? { EmitValid(m, alloc, bs.value); }
    } else {
      EmitRefValid(m, alloc, f.LongHead(), id, 4, AsIs, 0); EmitRefValid(m, alloc, [f.shortCode], id, 1, AsIs, 0);
    }
  }

  lemma PutValid(s: State, alloc: Allocator, id: nat, disp: int)
    requires Valid(s)
    ensures var t := PutRel_(s, alloc, id, disp); t.Some? ==> Kept(s, t.value)
    ensures var t := PutAbs_(s, alloc, id); t.Some? ==> Kept(s, t.value)
  {
    PutRelValid(s, alloc, id, disp);
    PutAbsValid(s, alloc, id);
  }

  lemma PutRelValid(s: State, alloc: Allocator, id: nat, disp: int)
    requires Valid(s)
    ensures var t := PutRel_(s, alloc, id, disp); t.Some? ==> Kept(s, t.value)
  {
    hide Emit, EmitRef, LE;
    var m := Margin(s, alloc);
    EmitRefValid(m, alloc, [], id, 4, AsIs, disp);
    if id in m.defs { EmitValid(m, alloc, LE(m.defs[id] + disp - |m.buf| - 4, 4)); }
  }

  lemma PutAbsValid(s: State, alloc: Allocator, id: nat)
    requires Valid(s)
    ensures var t := PutAbs_(s, alloc, id); t.Some? ==> Kept(s, t.value)
  {
    hide Emit, EmitRef, EmitPatch, LE;
    var m := Margin(s, alloc);
    EmitRefValid(m, alloc, [], id, 8, if s.auto then AddTop else Abs, 0);
    if id in m.defs {
      EmitPatchValid(m, alloc, [], m.defs[id], 8, AddTop);
      EmitValid(m, alloc, LE(m.base + m.defs[id], 8));
    }
  }

  lemma JumpAbsValid(s: State, alloc: Allocator, addr: nat, f: Form)
    requires Valid(s)
    ensures var t := JumpAbs_(s, alloc, addr, f); t.Some? ==> Kept(s, t.value)
  {
    hide Emit, EmitPatch;
    var m := Margin(s, alloc);
    EmitPatchValid(m, alloc, f.LongHead(), addr - (|m.buf| + |f.LongHead()| + 4), 4, Abs);
    var bs := MakeJmp(addr - (s.base + |s.buf|), f);
    if bs.Some? { EmitValid(s, alloc, bs.value); }
  }

  /** Every step keeps references and patches inside the buffer and the buffer inside its size. */
  lemma StepValid(s: State, alloc: Allocator, op: Op)
    requires Valid(s)
    ensures var t := Step(s, alloc, op); t.Some? ==> Kept(s, t.value)
  {
    hide Emit, Jump_, PutRel_, PutAbs_, JumpAbs_, Define_;
    match op
    case Db(b) =>
    case Define(id) => DefineValid(s, id, |s.buf|);
    case Assign(dst, src) => if src in s.defs { DefineValid(s, dst, s.defs[src]); }
    case Jump(id, f) => JumpValid(s, alloc, id, f);
    case PutRel(id, disp) => PutValid(s, alloc, id, disp);
    case PutAbs(id) => PutValid(s, alloc, id, 0);
    case JumpAbs(addr, f) => JumpAbsValid(s, alloc, addr, f);
    case Align(x, m) => if x > 0 { EmitValid(s, alloc, Nops(Padding(s.base + |s.buf|, x), m)); }
  }

  function Run(s: State, alloc: Allocator, ops: seq<Op>): (t: Option<State>)
    requires Valid(s)
    ensures t.Some? ==> Kept(s, t.value)
  {
    if ops == [] then Some(s)
    else
      var t :- Run(s, alloc, ops[..|ops| - 1]);
      StepValid(t, alloc, ops[|ops| - 1]);
      Step(t, alloc, ops[|ops| - 1])
  }

  function PatchValue(p: Patch, base: nat): int {
    match p.mode
    case AddTop => p.value + base
    case AsIs => p.value
    case Abs => p.value - base
  }

  predicate PatchFits(p: Patch, base: nat) {
    p.size == 4 ==> InInt32(PatchValue(p, base))
  }

  /** The buffer after the saved patches have been written for a given base address. */
  function Applied(buf: seq<u8>, saved: seq<Patch>, base: nat): (r: seq<u8>)
    requires forall i :: 0 <= i < |saved| ==> saved[i].offset + saved[i].size <= |buf|
    ensures |r| == |buf|
    decreases |saved|
  {
    if saved == [] then buf
    else
      var p := saved[|saved| - 1];
      assert p.offset + p.size <= |buf|;
      Overwrite(Applied(buf, saved[..|saved| - 1], base), p.offset, LE(PatchValue(p, base), p.size))
  }

  /** ready(): no label may be missing; an AutoGrow buffer now knows its address. */
  function Ready(s: State): Option<State>
    requires Valid(s)
  {
    if s.pending != [] then None
    else if !s.auto then Some(s)
    else if exists p :: p in s.saved && !PatchFits(p, s.base) then None
    else Some(s.(buf := Applied(s.buf, s.saved, s.base)))
  }

  function Fresh(auto: bool, defaultNear: bool, base: nat, maxSize: nat): (s: State)
    ensures Valid(s)
  {
    State(auto, defaultNear, base, maxSize, [], map[], [], [], 0)
  }
}
