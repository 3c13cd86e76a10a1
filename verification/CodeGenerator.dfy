/** xbyak/xbyak.h: CodeArray and the label side of CodeGenerator, in place. Every method carries out the
    step of Assembler.dfy of the same name; `ok` is false where the source throws. */
module CodeGenerators {
  import opened Bytes
  import opened Assembler

  lemma {:induction false} ResolveSkip(s: State, id: nat, offset: nat, a: seq<Ref>, b: seq<Ref>)
    requires forall i :: 0 <= i < |a| ==> a[i].id != id && a[i].size <= a[i].end <= |s.buf|
    requires forall i :: 0 <= i < |b| ==> b[i].size <= b[i].end <= |s.buf|
    ensures forall i :: 0 <= i < |a + b| ==> (a + b)[i].size <= (a + b)[i].end <= |s.buf|
    ensures Resolve(s, id, offset, a + b) == Resolve(s.(pending := s.pending + a), id, offset, b)
    decreases |a|
  {
    if a == [] { assert a + b == b && s.pending + a == s.pending; }
    else {
      assert (a + b)[1..] == a[1..] + b && (a + b)[0] == a[0];
      assert s.pending + [a[0]] + a[1..] == s.pending + a;
      ResolveSkip(s.(pending := s.pending + [a[0]]), id, offset, a[1..], b);
    }
  }

  lemma ResolveHit(s: State, id: nat, offset: nat, r: Ref, b: seq<Ref>)
    requires r.id == id && r.size <= r.end <= |s.buf| && forall i :: 0 <= i < |b| ==> b[i].size <= b[i].end <= |s.buf|
    requires Fix(s, r, offset).Some? ==> |Fix(s, r, offset).value.buf| == |s.buf|
    ensures Resolve(s, id, offset, [r] + b)
         == if Fix(s, r, offset).Some? then Resolve(Fix(s, r, offset).value, id, offset, b) else None
  {
    hide Fix;
    assert ([r] + b)[1..] == b;
  }

  lemma FixAside(s: State, a: seq<Ref>, r: Ref, offset: nat)
    requires s.pending == [] && r.size <= r.end <= |s.buf|
    ensures var t := Fix(s, r, offset);
      && Fix(s.(pending := a), r, offset) == (if t.Some? then Some(t.value.(pending := a)) else None)
      && (t.Some? ==> |t.value.buf| == |s.buf| && t.value.pending == [])
  {
    hide Overwrite, LE;
  }

  /** Erasing the first matching reference after fixing it leaves the same work to do. */
  lemma ResolveFirst(s: State, id: nat, offset: nat, a: seq<Ref>, r: Ref, b: seq<Ref>)
    requires s.pending == [] && r.id == id && r.size <= r.end <= |s.buf|
    requires forall i :: 0 <= i < |a| ==> a[i].id != id && a[i].size <= a[i].end <= |s.buf|
    requires forall i :: 0 <= i < |b| ==> b[i].size <= b[i].end <= |s.buf|
    ensures forall i :: 0 <= i < |a + [r] + b| ==> (a + [r] + b)[i].size <= (a + [r] + b)[i].end <= |s.buf|
    ensures forall i :: 0 <= i < |a + b| ==> (a + b)[i].size <= (a + b)[i].end <= |s.buf|
    ensures var t := Fix(s, r, offset);
      && (t.Some? ==> |t.value.buf| == |s.buf|)
      && Resolve(s, id, offset, a + [r] + b) == if t.Some? then Resolve(t.value, id, offset, a + b) else None
  {
    hide Overwrite, LE, Resolve, Fix;
    var rest := [r] + b;
    assert a + [r] + b == a + rest;
    ResolveSkip(s, id, offset, a, rest);
    assert s.pending + a == a;
    var t := Fix(s, r, offset);
    FixAside(s, a, r, offset);
    ResolveHit(s.(pending := a), id, offset, r, b);
    if t.Some? {
      ResolveSkip(t.value, id, offset, a, b);
      assert t.value.pending + a == a;
    }
  }

  class CodeGenerator {
    const auto: bool
    const defaultNear: bool
    const alloc: Allocator
    var top: array<u8>
    var base: nat
    var maxSize: nat
    var size: nat
    var addrInfoList: seq<Patch>
    var defList: map<nat, nat>
    var undefList: seq<Ref>
    var grown: nat

    ghost function View(): State
      reads this, top
      requires size <= top.Length
    {
      State(auto, defaultNear, base, maxSize, top[..size], defList, undefList, addrInfoList, grown)
    }

    ghost predicate Ok()
      reads this, top
    {
      && maxSize <= top.Length && size <= maxSize && Valid(View())
      && (forall i :: 0 <= i < |undefList| ==> undefList[i].size > 0)
      && (forall i :: 0 <= i < |addrInfoList| ==> addrInfoList[i].size > 0)
    }

    constructor (auto: bool, defaultNear: bool, alloc: Allocator, base: nat, maxSize: nat)
      ensures Ok() && View() == Fresh(auto, defaultNear, base, maxSize)
      ensures fresh(top)
    {
      this.auto, this.defaultNear, this.alloc, this.base, this.maxSize := auto, defaultNear, alloc, base, maxSize;
      top := new u8[if maxSize < 1 then 1 else maxSize](_ => 0);
      size, addrInfoList, defList, undefList, grown := 0, [], map[], [], 0;
    }

    /** growMemory: allocate, copy, move. */
    method GrowMemory()
      requires Ok() && auto
      modifies this
      ensures Ok() && fresh(top)
      ensures View() == Grow(old(View()), alloc)
      ensures maxSize >= 4096 && maxSize >= 2 * old(maxSize) && (maxSize == 4096 || maxSize == 2 * old(maxSize))
    {
      var newSize := if 2 * maxSize < 4096 then 4096 else 2 * maxSize;
      var newTop := new u8[newSize](_ => 0);
      for i := 0 to size
        invariant newTop[..i] == old(top[..i]) && unchanged(this) && fresh(newTop)
        modifies newTop
      {
        newTop[i] := top[i];
      }
      assert newTop[..size] == old(top[..size]);
      top, base, maxSize, grown := newTop, alloc(grown), newSize, grown + 1;
    }

    method Db(code: u8) returns (ok: bool)
      requires Ok()
      modifies this, top
      ensures Ok() && (top == old(top) || fresh(top))
      ensures var t := EmitByte(old(View()), alloc, code); ok == t.Some? && (ok ==> View() == t.value)
    {
      if size >= maxSize {
        if auto { GrowMemory(); } else { return false; }
      }
      top[size] := code;
      size := size + 1;
      assert top[..size] == old(top[..size]) + [code];
      return true;
    }

    method Dbs(code: seq<u8>) returns (ok: bool)
      requires Ok()
      modifies this, top
      ensures Ok() && (top == old(top) || fresh(top))
      ensures var t := Emit(old(View()), alloc, code); ok == t.Some? && (ok ==> View() == t.value)
    {
      assert code[0..] == code;
      for i := 0 to |code|
        invariant Ok() && (top == old(top) || fresh(top))
        invariant Emit(old(View()), alloc, code) == Emit(View(), alloc, code[i..])
      {
        assert code[i..][1..] == code[i + 1..];
        ok := Db(code[i]);
        if !ok { return; }
      }
      return true;
    }

    /** rewrite: n bytes of v at an offset; the bounds check of the source. */
    method Rewrite(offset: nat, v: int, n: nat) returns (ok: bool)
      requires Ok() && offset + n <= size && n > 0
      modifies top
      ensures Ok() && ok
      ensures View() == old(View()).(buf := Overwrite(old(View()).buf, offset, LE(v, n)))
    {
      if offset >= maxSize || n > maxSize - offset { return false; }
      var bs := LE(v, n);
      ghost var before := top[..size];
      for i := 0 to n
        invariant top[..size] == Overwrite(before, offset, bs[..i])
      {
        top[offset + i] := bs[i];
        assert top[..size] == Overwrite(before, offset, bs[..i])[offset + i := bs[i]];
        assert Overwrite(before, offset, bs[..i])[offset + i := bs[i]] == Overwrite(before, offset, bs[..i + 1]);
      }
      assert bs[..n] == bs;
      return true;
    }

    /** The body of define_inner's loop for one reference. */
    method FixOne(r: Ref, offset: nat) returns (ok: bool)
      requires Ok() && 0 < r.size <= r.end <= size
      modifies this`addrInfoList, top
      ensures Ok()
      ensures var t := Fix(old(View()), r, offset); ok == t.Some? && (ok ==> View() == t.value)
    {
      hide Overwrite, LE;
      var at := r.end - r.size;
      var v := if r.mode.AddTop? then offset + r.disp
               else if r.mode.Abs? then base + size + r.disp
               else offset - r.end + r.disp;
      if r.mode.AsIs? {
        if r.size <= 4 && !InInt32(v) { return false; }
        if r.size == 1 && !InInt8(v) { return false; }
      }
      if auto {
        addrInfoList := addrInfoList + [Patch(at, v, r.size, r.mode)];
        return true;
      }
      ok := Rewrite(at, v, r.size);
    }

    method Find(id: nat) returns (i: nat)
      ensures i <= |undefList| && (i < |undefList| ==> undefList[i].id == id)
      ensures forall k :: 0 <= k < i ==> undefList[k].id != id
    {
      i := 0;
      while i < |undefList| && undefList[i].id != id
        invariant i <= |undefList| && forall k :: 0 <= k < i ==> undefList[k].id != id
      {
        i := i + 1;
      }
    }

    /** Fixes reference i, the first one to this label, and erases it. */
    method FixAndErase(i: nat, id: nat, offset: nat) returns (ok: bool)
      requires Ok() && i < |undefList| && undefList[i].id == id && forall k :: 0 <= k < i ==> undefList[k].id != id
      modifies this`undefList, this`addrInfoList, top
      ensures Ok()
      ensures ok ==> |undefList| == old(|undefList|) - 1
      ensures var todo := Resolve(old(View()).(pending := []), id, offset, old(undefList));
        if ok then Resolve(View().(pending := []), id, offset, undefList) == todo else todo.None?
    {
      hide Fix, RefValue, Overwrite, LE, Resolve;
      var r := undefList[i];
      ghost var a, b, s := undefList[..i], undefList[i + 1..], View().(pending := []);
      assert undefList == a + [r] + b;
      ResolveFirst(s, id, offset, a, r, b);
      FixPending(View(), r, offset);
      ok := FixOne(r, offset);
      if ok {
        undefList := undefList[..i] + undefList[i + 1..];
        assert undefList == a + b;
      }
    }

    /** define_inner: add the label, then fix and erase its pending references one by one. */
    method DefineInner(id: nat, offset: nat) returns (ok: bool)
      requires Ok()
      modifies this`defList, this`undefList, this`addrInfoList, top
      ensures Ok()
      ensures var t := Define_(old(View()), id, offset); ok == t.Some? && (ok ==> View() == t.value)
    {
      hide Resolve;
      if id in defList { return false; }
      defList := defList[id := offset];
      ghost var goal := Resolve(View().(pending := []), id, offset, undefList);
      var i := Find(id);
      while i < |undefList|
        invariant Ok() && 0 <= i <= |undefList| && (i < |undefList| ==> undefList[i].id == id)
        invariant forall k :: 0 <= k < i ==> undefList[k].id != id
        invariant Resolve(View().(pending := []), id, offset, undefList) == goal
        decreases |undefList|
      {
        ok := FixAndErase(i, id, offset);
        if !ok { return; }
        i := Find(id);
      }
      ResolveNone(View().(pending := []), id, offset, undefList);
      return true;
    }

    method L(id: nat) returns (ok: bool)
      requires Ok()
      modifies this`defList, this`undefList, this`addrInfoList, top
      ensures Ok()
      ensures var t := Step(old(View()), alloc, Define(id)); ok == t.Some? && (ok ==> View() == t.value)
    {
      ok := DefineInner(id, size);
    }

    method AssignL(dst: nat, src: nat) returns (ok: bool)
      requires Ok()
      modifies this`defList, this`undefList, this`addrInfoList, top
      ensures Ok()
      ensures var t := Step(old(View()), alloc, Assign(dst, src)); ok == t.Some? && (ok ==> View() == t.value)
    {
      if src !in defList { return false; }
      ok := DefineInner(dst, defList[src]);
    }

    method AddUndefined(head: seq<u8>, id: nat, n: nat, mode: Mode, disp: int) returns (ok: bool)
      requires Ok() && n > 0
      modifies this, top
      ensures Ok() && (top == old(top) || fresh(top))
      ensures var t := EmitRef(old(View()), alloc, head, id, n, mode, disp); ok == t.Some? && (ok ==> View() == t.value)
    {
      hide Emit, LE;
      EmitSpec(View(), alloc, head + LE(0, n));
      ok := Dbs(head + LE(0, n));
      if ok { undefList := undefList + [Ref(id, size, n, mode, disp)]; }
    }

    /** save() after zeros have been emitted. */
    method Save(head: seq<u8>, v: int, n: nat, mode: Mode) returns (ok: bool)
      requires Ok() && n > 0
      modifies this, top
      ensures Ok() && (top == old(top) || fresh(top))
      ensures var t := EmitPatch(old(View()), alloc, head, v, n, mode); ok == t.Some? && (ok ==> View() == t.value)
    {
      hide Emit, LE;
      EmitSpec(View(), alloc, head + LE(0, n));
      ok := Dbs(head + LE(0, n));
      if ok { addrInfoList := addrInfoList + [Patch(size - n, v, n, mode)]; }
    }

    method KeepTogether()
      requires Ok()
      modifies this
      ensures Ok() && (top == old(top) || fresh(top))
      ensures View() == Margin(old(View()), alloc)
    {
      if auto && size + 16 >= maxSize { GrowMemory(); }
    }

    method OpJmp(id: nat, f: Form) returns (ok: bool)
      requires Ok()
      modifies this, top
      ensures Ok() && (top == old(top) || fresh(top))
      ensures var t := Step(old(View()), alloc, Jump(id, f)); ok == t.Some? && (ok ==> View() == t.value)
    {
      hide Emit, EmitRef, Grow, LE;
      if f.kind.Far? { return false; }
      KeepTogether();
      if id in defList {
        var disp := defList[id] - size;
        if !InInt32(disp) { return false; }
        var bs := MakeJmp(disp, f);
        if bs.None? { return false; }
        ok := Dbs(bs.value);
      } else if f.kind.Near? || (f.kind.Auto? && defaultNear) {
        ok := AddUndefined(f.LongHead(), id, 4, AsIs, 0);
      } else {
        ok := AddUndefined([f.shortCode], id, 1, AsIs, 0);
      }
    }

    /** putL_inner */
    method PutL(id: nat, relative: bool, disp: int) returns (ok: bool)
      requires Ok()
      modifies this, top
      ensures Ok() && (top == old(top) || fresh(top))
      ensures var t := Step(old(View()), alloc, if relative then PutRel(id, disp) else PutAbs(id));
        ok == t.Some? && (ok ==> View() == t.value)
    {
      hide Emit, EmitRef, EmitPatch, Grow, LE;
      KeepTogether();
      if id in defList {
        if relative {
          var v := defList[id] + disp - size - 4;
          if !InInt32(v) { return false; }
          ok := Dbs(LE(v, 4));
        } else if auto {
          ok := Save([], defList[id], 8, AddTop);
        } else {
          ok := Dbs(LE(base + defList[id], 8));
        }
      } else if relative {
        ok := AddUndefined([], id, 4, AsIs, disp);
      } else {
        ok := AddUndefined([], id, 8, if auto then AddTop else Abs, 0);
      }
    }

    method OpJmpAbs(addr: nat, f: Form) returns (ok: bool)
      requires Ok()
      modifies this, top
      ensures Ok() && (top == old(top) || fresh(top))
      ensures var t := Step(old(View()), alloc, JumpAbs(addr, f)); ok == t.Some? && (ok ==> View() == t.value)
    {
      hide Emit, EmitPatch, Grow, LE;
      if f.kind.Far? { return false; }
      if auto {
        if !(f.kind.Near? || (f.kind.Auto? && defaultNear)) { return false; }
        KeepTogether();
        ok := Save(f.LongHead(), addr - (size + |f.LongHead()| + 4), 4, Abs);
      } else {
        var disp := addr - (base + size);
        if !InInt32(disp) { return false; }
        var bs := MakeJmp(disp, f);
        if bs.None? { return false; }
        ok := Dbs(bs.value);
      }
    }

    method Align(x: nat, multiByte: nat) returns (ok: bool)
      requires Ok()
      modifies this, top
      ensures Ok() && (top == old(top) || fresh(top))
      ensures var t := Step(old(View()), alloc, Op.Align(x, multiByte)); ok == t.Some? && (ok ==> View() == t.value)
    {
      hide Emit, LE, Nops;
      if x == 1 { return true; }
      if x < 1 || !PowerOfTwo(x) { return false; }
      if auto && PAGE % x != 0 { return false; }
      var remain := (base + size) % x;
      if remain != 0 {
        ok := Nop(x - remain, multiByte);
      } else {
        EmitNothing(View(), alloc, multiByte);
        ok := true;
      }
    }

    /** nop(size, useMultiByteNop): the longest rows of the table first. */
    method Nop(n: nat, multiByte: nat) returns (ok: bool)
      requires Ok()
      modifies this, top
      ensures Ok() && (top == old(top) || fresh(top))
      ensures var t := Emit(old(View()), alloc, Nops(n, multiByte)); ok == t.Some? && (ok ==> View() == t.value)
    {
      hide Emit, Nops, NopRow;
      var rest := n;
      while rest > 0
        invariant Ok() && (top == old(top) || fresh(top))
        invariant Emit(old(View()), alloc, Nops(n, multiByte)) == Emit(View(), alloc, Nops(rest, multiByte))
      {
        var longest := if multiByte == 0 then 1 else if multiByte == 2 then 15 else 9;
        var len := if rest < longest then rest else longest;
        NopsStep(rest, multiByte, len);
        EmitConcat(View(), alloc, NopRow(len), Nops(rest - len, multiByte));
        ok := Dbs(NopRow(len));
        if !ok { return; }
        rest := rest - len;
      }
      EmitNothing(View(), alloc, multiByte);
      return true;
    }

    /** ready(): refuses while a label is missing; calcJmpAddress writes the saved patches in order. */
    method Ready() returns (ok: bool)
      requires Ok()
      modifies top
      ensures Ok()
      ensures var t := Assembler.Ready(old(View())); ok == t.Some? && (ok ==> View() == t.value)
    {
      hide Overwrite, LE;
      if undefList != [] { return false; }
      if !auto { return true; }
      ghost var before := View();
      for i := 0 to |addrInfoList|
        invariant Ok() && View() == before.(buf := Applied(before.buf, addrInfoList[..i], base))
        invariant forall k :: 0 <= k < i ==> PatchFits(addrInfoList[k], base)
      {
        var p := addrInfoList[i];
        if !PatchFits(p, base) { return false; }
        assert addrInfoList[..i + 1][..i] == addrInfoList[..i];
        var _ := Rewrite(p.offset, PatchValue(p, base), p.size);
      }
      assert addrInfoList[..|addrInfoList|] == addrInfoList;
      return true;
    }
  }

  lemma FixPending(s: State, r: Ref, offset: nat)
    requires r.size <= r.end <= |s.buf|
    ensures var t := Fix(s, r, offset);
      Fix(s.(pending := []), r, offset) == if t.Some? then Some(t.value.(pending := [])) else None
    ensures Fix(s, r, offset).Some? ==> |Fix(s, r, offset).value.buf| == |s.buf| && Fix(s, r, offset).value.pending == s.pending
  {}

  lemma ResolveNone(s: State, id: nat, offset: nat, a: seq<Ref>)
    requires s.pending == [] && forall i :: 0 <= i < |a| ==> a[i].id != id && a[i].size <= a[i].end <= |s.buf|
    ensures Resolve(s, id, offset, a) == Some(s.(pending := a))
  {
    ResolveSkip(s, id, offset, a, []);
    assert a + [] == a && s.pending + a == a;
  }

  lemma {:induction false} EmitConcat(s: State, alloc: Allocator, a: seq<u8>, b: seq<u8>)
    ensures var t := Emit(s, alloc, a);
      Emit(s, alloc, a + b) == if t.Some? then Emit(t.value, alloc, b) else None
    decreases |a|
  {
    if a == [] { assert a + b == b; }
    else {
      assert (a + b)[1..] == a[1..] + b;
      var t := EmitByte(s, alloc, a[0]);
      if t.Some? { EmitConcat(t.value, alloc, a[1..], b); }
    }
  }

  lemma NopsStep(size: nat, multiByte: nat, len: nat)
    requires 0 < size
    requires var longest := if multiByte == 0 then 1 else if multiByte == 2 then 15 else 9; len == if size < longest then size else longest
    ensures Nops(size, multiByte) == NopRow(len) + Nops(size - len, multiByte)
  {
    assert NopRow(1) == [0x90];
    hide NopRow;
  }

  lemma EmitNothing(s: State, alloc: Allocator, multiByte: nat)
    ensures Emit(s, alloc, Nops(0, multiByte)) == Some(s)
  {}
}
