/** sample/toyvm.cpp: a two-register machine, its interpreter and its compiler to x86. */
module ToyVm {
  import opened Arith
  import opened Bytes
  import opened Machine

  const CELLS: nat := 65536
  const LD := 0
  const LDI := 1
  const ST := 2
  const ADD := 3
  const ADDI := 4
  const SUB := 5
  const SUBI := 6
  const PUT := 7
  const JNZ := 8

  type Imm = x: int | 0 <= x < 0x1_0000
  datatype Insn = Insn(code: nat, r: nat, imm: Imm)

  /** encode and decode of one instruction word. */
  function Encode(code: nat, r: nat, imm: nat): (x: u32)
    requires code <= JNZ && r < 0x100 && imm < 0x1_0000
  {
    code * 0x100_0000 + r * 0x1_0000 + imm
  }

  function Decode(x: u32): Insn {
    Insn(x / 0x100_0000, x / 0x1_0000 % 0x100, x % 0x1_0000)
  }

  lemma DecodeEncode(code: nat, r: nat, imm: nat)
    requires code <= JNZ && r < 0x100 && imm < 0x1_0000
    ensures Decode(Encode(code, r, imm)) == Insn(code, r, imm)
  {}

  /** The 16-bit immediate of a jump, as a signed short. */
  function Offset(imm: nat): int {
    if imm < 0x8000 then imm else imm - 0x1_0000
  }

  /** A program of the machine's instructions only, whose jumps land inside it. */
  predicate WellFormed(prog: seq<Insn>) {
    && 0 < |prog| < 0x8000_0000
    && forall i :: 0 <= i < |prog| ==> GoodInsn(prog, i)
  }

  predicate GoodInsn(prog: seq<Insn>, i: nat)
    requires i < |prog|
  {
    var d := prog[i];
    d.code <= JNZ && d.r < 2 && (d.code == JNZ ==> 0 <= i + 1 + Offset(d.imm) < |prog|)
  }

  datatype Vm = Vm(pc: nat, a: u32, b: u32, mem: seq<u32>, out: seq<Event>) {
    function Get(r: nat): u32 { if r == 0 then a else b }
    function Set(r: nat, v: u32): Vm { if r == 0 then this.(a := v) else this.(b := v) }
  }

  /** One round of run(): execute, then advance the 32-bit program counter. */
  function VmStep(prog: seq<Insn>, v: Vm): Vm
    requires |v.mem| == CELLS
  {
    if v.pc >= |prog| then v
    else
      var d := prog[v.pc];
      var w :=
        if d.code == LDI then v.Set(d.r, d.imm)
        else if d.code == LD then v.Set(d.r, v.mem[d.imm])
        else if d.code == ST then v.(mem := v.mem[d.imm := v.Get(d.r)])
        else if d.code == ADD then v.Set(d.r, Wrap(v.Get(d.r) + v.mem[d.imm]))
        else if d.code == ADDI then v.Set(d.r, Wrap(v.Get(d.r) + d.imm))
        else if d.code == SUB then v.Set(d.r, Wrap(v.Get(d.r) - v.mem[d.imm]))
        else if d.code == SUBI then v.Set(d.r, Wrap(v.Get(d.r) - d.imm))
        else if d.code == PUT then v.(out := v.out + [Printf(Wrap(65 + d.r), v.Get(d.r), v.Get(d.r))])
        else v;
      var jump := if d.code == JNZ && v.Get(d.r) != 0 then Offset(d.imm) else 0;
      w.(pc := Wrap(Wrap(v.pc + jump) + 1))
  }

  function VmSteps(prog: seq<Insn>, v: Vm, n: nat): (w: Vm)
    requires |v.mem| == CELLS
    ensures |w.mem| == CELLS
  {
    if n == 0 then v else VmStep(prog, VmSteps(prog, v, n - 1))
  }

  /** Registers of the compiled program: A is esi, B is edi, and the first three cells live in eax, ecx, edx. */
  function Host(r: nat): Reg { if r == 0 then ESI else EDI }

  function Cell(i: nat): Operand
    requires i < CELLS
  {
    if i == 0 then R(EAX) else if i == 1 then R(ECX) else if i == 2 then R(EDX) else M(EBX, 4 * i)
  }

  /** Address of mem_, of printf and of its format string. */
  datatype Layout = Layout(mem: u32, printf: u32, str: u32)

  /** Everything but PUT and JNZ is one machine instruction. */
  function Simple(d: Insn): Instr
    requires d.imm < CELLS
  {
    var reg := R(Host(d.r));
    if d.code == LDI then Mov(reg, I(d.imm))
    else if d.code == LD then Mov(reg, Cell(d.imm))
    else if d.code == ST then Mov(Cell(d.imm), reg)
    else if d.code == ADD then Add(reg, Cell(d.imm))
    else if d.code == ADDI then Add(reg, I(d.imm))
    else if d.code == SUB then Sub(reg, Cell(d.imm))
    else Sub(reg, I(d.imm))
  }

  function PutArgs(r: Reg, c: u32, str: u32): seq<Instr> {
    [Push(R(EAX)), Push(R(EDX)), Push(R(ECX)), Push(R(r)), Push(R(r)), Push(I(c)), Push(I(str))]
  }

  function PutCall(f: u32): seq<Instr> {
    [Call(I(f)), Drop(4), Pop(ECX), Pop(EDX), Pop(EAX)]
  }

  function Body(d: Insn, pc: nat, lay: Layout): seq<Instr>
    requires d.imm < CELLS && d.r < 2
  {
    if d.code == PUT then PutArgs(Host(d.r), 65 + d.r, lay.str) + PutCall(lay.printf)
    else if d.code == JNZ then [Test(R(Host(d.r)), R(Host(d.r))), Jnz(pc + 1 + Offset(d.imm))]
    else [Simple(d)]
  }

  /** The code recompile emits for instruction i: its label and its body. */
  function Block(prog: seq<Insn>, i: nat, lay: Layout): seq<Instr>
    requires i < |prog| && GoodInsn(prog, i)
  {
    [Lab(i)] + Body(prog[i], i, lay)
  }

  function Blocks(prog: seq<Insn>, n: nat, lay: Layout): seq<Instr>
    requires n <= |prog| && WellFormed(prog)
  {
    if n == 0 then [] else Blocks(prog, n - 1, lay) + Block(prog, n - 1, lay)
  }

  function Prolog(lay: Layout): seq<Instr> {
    [Push(R(EBX)), Push(R(ESI)), Push(R(EDI)), Xor(R(EAX), R(EAX)), Xor(R(ECX), R(ECX)), Xor(R(EDX), R(EDX)),
     Xor(R(ESI), R(ESI)), Xor(R(EDI), R(EDI)), Mov(R(EBX), I(lay.mem))]
  }

  const EPILOG := [Pop(EDI), Pop(ESI), Pop(EBX), Ret]

  function Compile(prog: seq<Insn>, lay: Layout): seq<Instr>
    requires WellFormed(prog)
  {
    Prolog(lay) + Blocks(prog, |prog|, lay) + EPILOG
  }

  function Off(prog: seq<Insn>, i: nat, lay: Layout): nat
    requires i <= |prog| && WellFormed(prog)
  {
    9 + |Blocks(prog, i, lay)|
  }

  lemma {:induction false} BlocksPrefix(prog: seq<Insn>, i: nat, n: nat, lay: Layout)
    requires i <= n <= |prog| && WellFormed(prog)
    ensures Blocks(prog, i, lay) <= Blocks(prog, n, lay)
  {
    hide Block;
    if i < n { BlocksPrefix(prog, i, n - 1, lay); }
  }

  lemma CodeAt(prog: seq<Insn>, i: nat, lay: Layout)
    requires i < |prog| && WellFormed(prog)
    ensures var code := Compile(prog, lay); var o := Off(prog, i, lay); var b := Block(prog, i, lay);
      o + |b| == Off(prog, i + 1, lay) <= |code| && code[o..o + |b|] == b
  {
    hide Block;
    BlocksPrefix(prog, i + 1, |prog|, lay);
    var all, b := Blocks(prog, |prog|, lay), Block(prog, i, lay);
    assert Blocks(prog, i + 1, lay) == Blocks(prog, i, lay) + b;
    assert all[|Blocks(prog, i, lay)|..|Blocks(prog, i, lay)| + |b|] == b;
  }

  lemma BodyNoLabel(d: Insn, pc: nat, lay: Layout)
    requires d.imm < CELLS && d.r < 2
    ensures forall i :: i in Body(d, pc, lay) ==> !i.Lab?
    ensures d.code != JNZ && d.code <= JNZ ==> forall i :: i in Body(d, pc, lay) ==> Straight(i)
  {}

  predicate LabelsBelow(code: seq<Instr>, n: nat) {
    forall q :: 0 <= q < |code| ==> code[q].Lab? ==> 0 <= code[q].name < n
  }

  lemma {:induction false} LabelsBefore(prog: seq<Insn>, n: nat, lay: Layout)
    requires n <= |prog| && WellFormed(prog)
    ensures LabelsBelow(Blocks(prog, n, lay), n)
  {
    if n > 0 {
      LabelsBefore(prog, n - 1, lay);
      var a, b := Blocks(prog, n - 1, lay), Block(prog, n - 1, lay);
      BodyNoLabel(prog[n - 1], n - 1, lay);
      var body := Body(prog[n - 1], n - 1, lay);
      assert b == [Lab(n - 1)] + body && forall q :: 0 <= q < |body| ==> body[q] in body;
      assert LabelsBelow(b, n);
    }
  }

  /** The label of instruction i is defined once, where its block starts. */
  lemma FindLabel(prog: seq<Insn>, i: nat, lay: Layout)
    requires i < |prog| && WellFormed(prog)
    ensures Find(Compile(prog, lay), i) == Off(prog, i, lay)
  {
    hide Find, Block, Prolog;
    var code, o := Compile(prog, lay), Off(prog, i, lay);
    CodeAt(prog, i, lay);
    BlockHead(prog, i, lay);
    assert code[o] == code[o..o + |Block(prog, i, lay)|][0];
    LabelsBefore(prog, i, lay);
    BlocksPrefix(prog, i, |prog|, lay);
    PrologNoLabel(lay);
    forall q | 0 <= q < o ensures code[q] != Lab(i) {
      var before := Blocks(prog, i, lay);
      if q >= 9 { assert code[q] == Blocks(prog, |prog|, lay)[q - 9] == before[q - 9]; }
      else { assert code[q] == Prolog(lay)[q]; }
    }
    FindFirst(code, i, o);
  }

  lemma BlockHead(prog: seq<Insn>, i: nat, lay: Layout)
    requires i < |prog| && GoodInsn(prog, i)
    ensures |Block(prog, i, lay)| > 0 && Block(prog, i, lay)[0] == Lab(i)
  {}

  lemma PrologNoLabel(lay: Layout)
    ensures |Prolog(lay)| == 9 && forall i :: i in Prolog(lay) ==> Straight(i) && !i.Lab?
  {}

  lemma FindFirst(code: seq<Instr>, name: int, o: nat)
    requires o < |code| && code[o] == Lab(name) && forall q :: 0 <= q < o ==> code[q] != Lab(name)
    ensures Find(code, name) == o
  {
  }

  /** The compiled program, between blocks, holds the interpreter's state. `frame` is the stack below the
      saved registers at the entry of the compiled function. */
  ghost predicate Synced(lay: Layout, v: Vm, s: State, frame: seq<u32>, out0: seq<Event>)
  {
    && |v.mem| == CELLS
    && s.status.Running?
    && s.regs.esi == v.a && s.regs.edi == v.b && s.regs.ebx == lay.mem
    && CellsAgree(lay, v.mem, s)
    && s.stack == frame && s.output == out0 + v.out
  }

  ghost predicate CellsAgree(lay: Layout, mem: seq<u32>, s: State)
    requires |mem| == CELLS
  {
    && lay.mem + 4 * CELLS <= W
    && s.regs.eax == mem[0] && s.regs.ecx == mem[1] && s.regs.edx == mem[2]
    && forall i :: 3 <= i < CELLS ==> Load32(s.mem, lay.mem + 4 * i) == mem[i]
  }

  lemma ReadCell(lay: Layout, mem: seq<u32>, s: State, i: nat)
    requires |mem| == CELLS && i < CELLS && CellsAgree(lay, mem, s) && s.regs.ebx == lay.mem
    ensures Read(s, Cell(i)) == mem[i] && Readable(s, Cell(i))
  {
    hide Load32;
    if i >= 3 { assert Wrap(lay.mem + 4 * i) == lay.mem + 4 * i; }
  }

  lemma WriteCell(lay: Layout, mem: seq<u32>, s: State, i: nat, x: u32)
    requires |mem| == CELLS && i < CELLS && CellsAgree(lay, mem, s) && s.regs.ebx == lay.mem
    ensures var t := Write(s, Cell(i), x);
      CellsAgree(lay, mem[i := x], t)
      && t == s.(regs := s.regs.(eax := t.regs.eax, ecx := t.regs.ecx, edx := t.regs.edx), mem := t.mem)
  {
    hide Load32, Store32;
    var t := Write(s, Cell(i), x);
    if i >= 3 {
      var a := lay.mem + 4 * i;
      assert Wrap(a) == a;
      LoadStored(s.mem, a, x);
      forall k | 3 <= k < CELLS ensures Load32(t.mem, lay.mem + 4 * k) == mem[i := x][k] {
        if k != i { LoadElsewhere(s.mem, a, x, lay.mem + 4 * k); }
      }
    }
  }

  /** Writing the host register of A or B. */
  lemma SetHost(lay: Layout, v: Vm, s: State, t: State, r: nat, x: u32, frame: seq<u32>, out0: seq<Event>)
    requires Synced(lay, v, s, frame, out0) && r < 2
    requires t == s.(regs := s.regs.Set(Host(r), x), zf := t.zf, cf := t.cf)
    ensures Synced(lay, v.Set(r, x).(pc := v.pc + 1), t, frame, out0)
  {
    hide Load32;
  }

  /** One machine instruction after the label does what the interpreter does. */
  lemma SimpleBody(prog: seq<Insn>, lay: Layout, v: Vm, s: State, env: Env, frame: seq<u32>, out0: seq<Event>)
    requires Synced(lay, v, s, frame, out0) && WellFormed(prog) && v.pc < |prog| && GoodInsn(prog, v.pc)
    requires prog[v.pc].code !in {PUT, JNZ}
    ensures prog[v.pc].imm < CELLS
      && Synced(lay, VmStep(prog, v), Exec(env, Simple(prog[v.pc]), s), frame, out0)
  {
    var d := prog[v.pc];
    ReadCell(lay, v.mem, s, d.imm);
    HostValue(lay, v, s, d.r, frame, out0);
    var t := Exec(env, Simple(d), s);
    if d.code == ST {
      PcNext(v.pc, 0);
      hide Load32, Store32, Exec, Cell, Synced, CellsAgree, Wrap;
      MoveRuns(env, s, Cell(d.imm), R(Host(d.r)));
      WriteCell(lay, v.mem, s, d.imm, v.Get(d.r));
      StoreStep(lay, v, s, t, d.imm, v.Get(d.r), frame, out0);
    } else {
      hide Load32, Store32, Exec, Cell, Synced, CellsAgree, Wrap, VmStep, Simple;
      VmAlu(prog, v);
      AluBody(env, s, d);
      SetHost(lay, v, s, t, d.r, Alu(d, v.Get(d.r), v.mem[d.imm]), frame, out0);
    }
  }

  function Alu(d: Insn, x: u32, cell: u32): u32 {
    if d.code == LDI then Wrap(d.imm) else if d.code == LD then cell
    else if d.code == ADD then Wrap(x + cell) else if d.code == ADDI then Wrap(x + d.imm)
    else if d.code == SUB then Wrap(x - cell) else Wrap(x - d.imm)
  }

  lemma VmAlu(prog: seq<Insn>, v: Vm)
    requires WellFormed(prog) && |v.mem| == CELLS && v.pc < |prog| && prog[v.pc].code in {LD, LDI, ADD, ADDI, SUB, SUBI}
    ensures var d := prog[v.pc];
      d.imm < CELLS && VmStep(prog, v) == v.Set(d.r, Alu(d, v.Get(d.r), v.mem[d.imm])).(pc := v.pc + 1)
  {
    PcNext(v.pc, 0);
    assert Wrap(prog[v.pc].imm) == prog[v.pc].imm;
    hide Wrap;
  }

  lemma AluBody(env: Env, s: State, d: Insn)
    requires d.imm < CELLS && d.code in {LD, LDI, ADD, ADDI, SUB, SUBI} && Readable(s, Cell(d.imm))
    ensures var t := Exec(env, Simple(d), s);
      t == s.(regs := s.regs.Set(Host(d.r), Alu(d, s.regs.Get(Host(d.r)), Read(s, Cell(d.imm)))), zf := t.zf, cf := t.cf)
  {
    hide Exec, Load32, Wrap, Cell, Simple, Alu, Read, Readable;
    if d.code == LD || d.code == LDI { AluMoves(env, s, d); }
    else if d.code == ADD || d.code == ADDI { AluAdds(env, s, d); }
    else { AluSubs(env, s, d); }
  }

  lemma AluMoves(env: Env, s: State, d: Insn)
    requires d.imm < CELLS && d.code in {LD, LDI} && Readable(s, Cell(d.imm))
    ensures var t := Exec(env, Simple(d), s);
      t == s.(regs := s.regs.Set(Host(d.r), Alu(d, s.regs.Get(Host(d.r)), Read(s, Cell(d.imm)))), zf := t.zf, cf := t.cf)
  {
    assert Wrap(d.imm) == d.imm;
    hide Exec, Load32, Wrap, Cell;
    if d.code == LD { AluRuns(env, s, Host(d.r), Cell(d.imm)); } else { AluRuns(env, s, Host(d.r), I(d.imm)); }
  }

  lemma AluAdds(env: Env, s: State, d: Insn)
    requires d.imm < CELLS && d.code in {ADD, ADDI} && Readable(s, Cell(d.imm))
    ensures var t := Exec(env, Simple(d), s);
      t == s.(regs := s.regs.Set(Host(d.r), Alu(d, s.regs.Get(Host(d.r)), Read(s, Cell(d.imm)))), zf := t.zf, cf := t.cf)
  {
    hide Exec, Load32, Wrap, Cell;
    if d.code == ADD { AluRuns(env, s, Host(d.r), Cell(d.imm)); } else { AluRuns(env, s, Host(d.r), I(d.imm)); }
  }

  lemma AluSubs(env: Env, s: State, d: Insn)
    requires d.imm < CELLS && d.code in {SUB, SUBI} && Readable(s, Cell(d.imm))
    ensures var t := Exec(env, Simple(d), s);
      t == s.(regs := s.regs.Set(Host(d.r), Alu(d, s.regs.Get(Host(d.r)), Read(s, Cell(d.imm)))), zf := t.zf, cf := t.cf)
  {
    hide Exec, Load32, Wrap, Cell;
    if d.code == SUB { AluRuns(env, s, Host(d.r), Cell(d.imm)); } else { AluRuns(env, s, Host(d.r), I(d.imm)); }
  }

  lemma HostValue(lay: Layout, v: Vm, s: State, r: nat, frame: seq<u32>, out0: seq<Event>)
    requires Synced(lay, v, s, frame, out0)
    ensures s.regs.Get(Host(r)) == v.Get(r)
  {}

  lemma MoveRuns(env: Env, s: State, d: Operand, o: Operand)
    requires Readable(s, o)
    ensures Exec(env, Mov(d, o), s) == Write(s, d, Read(s, o))
  {
    hide Load32, Store32;
  }

  lemma AluRuns(env: Env, s: State, r: Reg, o: Operand)
    requires Readable(s, o)
    ensures Exec(env, Mov(R(r), o), s) == s.(regs := s.regs.Set(r, Read(s, o)))
    ensures var t := Exec(env, Add(R(r), o), s);
      t == s.(regs := s.regs.Set(r, Wrap(s.regs.Get(r) + Read(s, o))), zf := t.zf, cf := t.cf)
    ensures var t := Exec(env, Sub(R(r), o), s);
      t == s.(regs := s.regs.Set(r, Wrap(s.regs.Get(r) - Read(s, o))), zf := t.zf, cf := t.cf)
  {
    hide Load32, Store32, Wrap;
  }

  lemma StoreStep(lay: Layout, v: Vm, s: State, t: State, i: nat, x: u32, frame: seq<u32>, out0: seq<Event>)
    requires Synced(lay, v, s, frame, out0) && i < CELLS
    requires t == Write(s, Cell(i), x) && CellsAgree(lay, v.mem[i := x], Write(s, Cell(i), x))
    ensures Synced(lay, v.(mem := v.mem[i := x], pc := v.pc + 1), t, frame, out0)
  {
    hide Load32, Store32;
  }

  lemma PcNext(pc: nat, jump: int)
    requires pc < 0x8000_0000 && 0 <= pc + 1 + jump < 0x8000_0000
    ensures Wrap(Wrap(pc + jump) + 1) == pc + 1 + jump
  {}

  /** The call of printf: eax, ecx, edx and the argument slots may be overwritten, and are restored or dropped. */
  lemma PutRuns(env: Env, s: State, r: Reg, c: u32, str: u32, f: u32)
    requires s.status.Running? && env.printf == f
    ensures var t := Fold(env, PutArgs(r, c, str) + PutCall(f), s);
      t == s.(pc := s.pc + 12, calls := s.calls + 1, zf := t.zf, cf := t.cf,
              output := s.output + [Printf(c, s.regs.Get(r), s.regs.Get(r))])
  {
    hide Exec, Fold, PutArgs, PutCall;
    var x := s.regs.Get(r);
    FoldAdd(env, PutArgs(r, c, str), PutCall(f), s);
    ArgsRun(env, s, r, c, str);
    var t := s.(pc := s.pc + 7, stack := [str, c, x, x, s.regs.ecx, s.regs.edx, s.regs.eax] + s.stack);
    assert t.stack[7..] == s.stack;
    CallRuns(env, t, f, s.stack);
  }

  lemma PutBody(prog: seq<Insn>, lay: Layout, v: Vm, s: State, env: Env, frame: seq<u32>, out0: seq<Event>)
    requires Synced(lay, v, s, frame, out0) && WellFormed(prog) && v.pc < |prog| && GoodInsn(prog, v.pc)
    requires prog[v.pc].code == PUT && env.printf == lay.printf
    ensures Synced(lay, VmStep(prog, v), Fold(env, Body(prog[v.pc], v.pc, lay), s), frame, out0)
  {
    var d := prog[v.pc];
    var x, c := v.Get(d.r), 65 + d.r;
    PcNext(v.pc, 0);
    assert Wrap(c) == c;
    assert VmStep(prog, v) == v.(out := v.out + [Printf(c, x, x)], pc := v.pc + 1) by { hide Wrap; }
    HostValue(lay, v, s, d.r, frame, out0);
    PutRuns(env, s, Host(d.r), c, lay.str, lay.printf);
    hide Load32, Fold, VmStep, PutArgs, PutCall, Host;
    assert out0 + v.out + [Printf(c, x, x)] == out0 + (v.out + [Printf(c, x, x)]);
  }

  lemma ArgsRun(env: Env, s: State, r: Reg, c: u32, str: u32)
    requires s.status.Running?
    ensures var x := s.regs.Get(r);
      Fold(env, PutArgs(r, c, str), s)
      == s.(pc := s.pc + 7, stack := [str, c, x, x, s.regs.ecx, s.regs.edx, s.regs.eax] + s.stack)
  {
    hide Exec, Fold, Load32;
    var x, k := s.regs.Get(r), s.stack;
    var c6 := [Push(I(str))];
    var c5 := [Push(I(c))] + c6;
    var c4 := [Push(R(r))] + c5;
    var c3 := [Push(R(r))] + c4;
    var c2 := [Push(R(ECX))] + c3;
    var c1 := [Push(R(EDX))] + c2;
    var c0 := [Push(R(EAX))] + c1;
    var s1 := PushRuns(env, s, R(EAX), c1);
    var s2 := PushRuns(env, s1, R(EDX), c2);
    var s3 := PushRuns(env, s2, R(ECX), c3);
    var s4 := PushRuns(env, s3, R(r), c4);
    var s5 := PushRuns(env, s4, R(r), c5);
    var s6 := PushRuns(env, s5, I(c), c6);
    var s7 := PushRuns(env, s6, I(str), []);
    assert c6 + [] == c6;
    assert c0 == PutArgs(r, c, str);
    assert s7.stack == [str, c, x, x, s.regs.ecx, s.regs.edx, s.regs.eax] + k;
    FoldNone(env, s7);
  }

  lemma CallRuns(env: Env, s: State, f: u32, frame: seq<u32>)
    requires s.status.Running? && |s.stack| >= 7 && f == env.printf && s.stack[7..] == frame
    ensures var t := Fold(env, PutCall(f), s);
      t == s.(pc := s.pc + 5, regs := s.regs.(eax := s.stack[6], ecx := s.stack[4], edx := s.stack[5]), stack := frame,
              calls := s.calls + 1, zf := t.zf, cf := t.cf, output := s.output + [Printf(s.stack[1], s.stack[2], s.stack[3])])
  {
    var c4 := [Pop(EAX)];
    var c3 := [Pop(EDX)] + c4;
    var c2 := [Pop(ECX)] + c3;
    assert PutCall(f) == [Call(I(f)), Drop(4)] + c2;
    var s2 := PrintfRuns(env, s, f, c2);
    hide Exec, Fold;
    var s3 := PopRuns(env, s2, ECX, c3);
    var s4 := PopRuns(env, s3, EDX, c4);
    var s5 := PopRuns(env, s4, EAX, []);
    assert c4 + [] == c4;
    assert s5.stack == frame;
    FoldNone(env, s5);
  }

  lemma PrintfRuns(env: Env, s: State, f: u32, rest: seq<Instr>) returns (t: State)
    requires s.status.Running? && |s.stack| >= 4 && f == env.printf
    ensures t == s.(pc := s.pc + 2, regs := s.regs.(eax := t.regs.eax, ecx := t.regs.ecx, edx := t.regs.edx), stack := s.stack[4..],
                    calls := s.calls + 1, zf := t.zf, cf := t.cf, output := s.output + [Printf(s.stack[1], s.stack[2], s.stack[3])])
    ensures Fold(env, [Call(I(f)), Drop(4)] + rest, s) == Fold(env, rest, t)
  {
    hide Load32, Store32;
    var drop := [Drop(4)] + rest;
    assert [Call(I(f)), Drop(4)] + rest == [Call(I(f))] + drop;
    var s1 := Exec(env, Call(I(f)), s).(pc := s.pc + 1);
    FoldStep(env, [Call(I(f))] + drop, drop, s);
    assert s1.stack[4..] == s.stack[4..];
    t := Exec(env, Drop(4), s1).(pc := s.pc + 2);
    FoldStep(env, drop, rest, s1);
  }

  /** At the start of a block: the interpreter's state, and the program counters match. */
  ghost predicate InStep(prog: seq<Insn>, lay: Layout, v: Vm, s: State, frame: seq<u32>, out0: seq<Event>)
    requires WellFormed(prog)
  {
    Synced(lay, v, s, frame, out0) && v.pc <= |prog| && s.pc == Off(prog, v.pc, lay)
  }

  lemma SyncedPc(lay: Layout, v: Vm, s: State, frame: seq<u32>, out0: seq<Event>, p: nat)
    requires Synced(lay, v, s, frame, out0)
    ensures Synced(lay, v, s.(pc := p), frame, out0)
  {
    hide Load32;
  }

  lemma LabRuns(env: Env, i: nat, body: seq<Instr>, s: State)
    requires s.status.Running?
    ensures Fold(env, [Lab(i)] + body, s) == Fold(env, body, s.(pc := s.pc + 1))
  {
    hide Load32, Store32, External;
    FoldStep(env, [Lab(i)] + body, body, s);
  }

  /** A block without a jump is one round of the interpreter. */
  lemma StraightRuns(prog: seq<Insn>, lay: Layout, v: Vm, s: State, env: Env, frame: seq<u32>, out0: seq<Event>)
    requires WellFormed(prog) && Synced(lay, v, s, frame, out0) && v.pc < |prog| && GoodInsn(prog, v.pc) && env.printf == lay.printf
    requires prog[v.pc].code != JNZ
    ensures var t := Fold(env, Block(prog, v.pc, lay), s);
      Synced(lay, VmStep(prog, v), t, frame, out0) && t.pc == s.pc + |Block(prog, v.pc, lay)|
    ensures VmStep(prog, v).pc == v.pc + 1
  {
    var i, d, s1 := v.pc, prog[v.pc], s.(pc := s.pc + 1);
    var body := Body(d, i, lay);
    PcNext(v.pc, 0);
    assert VmStep(prog, v).pc == v.pc + 1 by { hide Wrap; }
    hide VmStep, Fold, Exec, Simple, PutArgs, PutCall;
    LabRuns(env, i, body, s);
    SyncedPc(lay, v, s, frame, out0, s.pc + 1);
    FoldPc(env, Block(prog, i, lay), s);
    if d.code == PUT { PutBody(prog, lay, v, s1, env, frame, out0); }
    else {
      SimpleBody(prog, lay, v, s1, env, frame, out0);
      OneRuns(env, Simple(d), s1);
      SyncedPc(lay, VmStep(prog, v), Exec(env, Simple(d), s1), frame, out0, s.pc + 2);
    }
  }

  /** test and jnz take the interpreter's branch. */
  lemma JumpRuns(prog: seq<Insn>, lay: Layout, v: Vm, s: State, env: Env, frame: seq<u32>, out0: seq<Event>)
    requires WellFormed(prog) && InStep(prog, lay, v, s, frame, out0) && v.pc < |prog| && GoodInsn(prog, v.pc)
    requires prog[v.pc].code == JNZ
    ensures InStep(prog, lay, VmStep(prog, v), Steps(Compile(prog, lay), env, s, 3), frame, out0)
  {
    hide Compile, Off, VmStep, Steps, CellsAgree, Host, GoodInsn, WellFormed;
    JumpTarget(prog, v);
    HostValue(lay, v, s, prog[v.pc].r, frame, out0);
    JumpMachine(prog, lay, v.pc, s, env);
    SyncedFlags(lay, v, s, Steps(Compile(prog, lay), env, s, 3), frame, out0);
  }

  lemma JumpMachine(prog: seq<Insn>, lay: Layout, i: nat, s: State, env: Env)
    requires WellFormed(prog) && i < |prog| && GoodInsn(prog, i) && prog[i].code == JNZ
    requires s.status.Running? && s.pc == Off(prog, i, lay)
    ensures var target, zero := i + 1 + Offset(prog[i].imm), s.regs.Get(Host(prog[i].r)) == 0;
      && 0 <= target < |prog|
      && Steps(Compile(prog, lay), env, s, 3)
         == s.(pc := Off(prog, if zero then i + 1 else target, lay), zf := zero, cf := false)
  {
    hide Compile, Off, Load32, Find, Block, Body, Host, Step, Steps, GoodInsn, WellFormed, Offset;
    var d, code := prog[i], Compile(prog, lay);
    TargetGood(prog, i);
    var target := i + 1 + Offset(d.imm);
    JumpBlock(prog, i, lay);
    CodeAt(prog, i, lay);
    FindLabel(prog, target, lay);
    CodeAt(prog, target, lay);
    BlockHead(prog, target, lay);
    TestJnzRuns(code, env, s, i, Host(d.r), target);
  }

  lemma TargetGood(prog: seq<Insn>, i: nat)
    requires WellFormed(prog) && i < |prog| && GoodInsn(prog, i) && prog[i].code == JNZ
    ensures var target := i + 1 + Offset(prog[i].imm); 0 <= target < |prog| && GoodInsn(prog, target)
  {}

  lemma JumpBlock(prog: seq<Insn>, i: nat, lay: Layout)
    requires i < |prog| && GoodInsn(prog, i) && prog[i].code == JNZ
    ensures var d := prog[i]; var r := R(Host(d.r));
      Block(prog, i, lay) == [Lab(i), Test(r, r), Jnz(i + 1 + Offset(d.imm))]
  {}

  lemma TestJnzRuns(code: seq<Instr>, env: Env, s: State, i: int, r: Reg, target: int)
    requires s.status.Running? && s.pc + 3 <= |code| && code[s.pc..s.pc + 3] == [Lab(i), Test(R(r), R(r)), Jnz(target)]
    requires Find(code, target) < |code|
    ensures var zero := s.regs.Get(r) == 0;
      Steps(code, env, s, 3) == s.(pc := if zero then s.pc + 3 else Find(code, target), zf := zero, cf := false)
  {
    hide Load32, Store32, External, Find;
    var c := code[s.pc..s.pc + 3];
    assert c[0] == code[s.pc] && c[1] == code[s.pc + 1] && c[2] == code[s.pc + 2];
    ThreeSteps(code, env, s);
    var s1 := s.(pc := s.pc + 1);
    assert Step(code, env, s) == s1;
    var s2 := s.(pc := s.pc + 2, zf := s.regs.Get(r) == 0, cf := false);
    assert Step(code, env, s1) == s2;
  }

  lemma ThreeSteps(code: seq<Instr>, env: Env, s: State)
    ensures Steps(code, env, s, 3) == Step(code, env, Step(code, env, Step(code, env, s)))
  {
    hide Step;
    assert Steps(code, env, s, 3) == Steps(code, env, Step(code, env, s), 2);
    assert Steps(code, env, Step(code, env, s), 2) == Steps(code, env, Step(code, env, Step(code, env, s)), 1);
  }

  lemma SyncedFlags(lay: Layout, v: Vm, s: State, t: State, frame: seq<u32>, out0: seq<Event>)
    requires Synced(lay, v, s, frame, out0) && t == s.(pc := t.pc, zf := t.zf, cf := t.cf)
    ensures forall pc :: Synced(lay, v.(pc := pc), t, frame, out0)
  {
    hide Load32;
  }

  lemma JumpTarget(prog: seq<Insn>, v: Vm)
    requires WellFormed(prog) && |v.mem| == CELLS && v.pc < |prog| && GoodInsn(prog, v.pc) && prog[v.pc].code == JNZ
    ensures var d := prog[v.pc];
      VmStep(prog, v) == v.(pc := if v.Get(d.r) != 0 then v.pc + 1 + Offset(d.imm) else v.pc + 1)
  {
    var d := prog[v.pc];
    PcNext(v.pc, 0); PcNext(v.pc, Offset(d.imm));
    hide Wrap;
  }

  /** A distance cast to uint16_t is read back by the cast to signed short. */
  lemma OffsetBack(k: int)
    requires -0x8000 <= k < 0x8000
    ensures Offset(k % 0x1_0000) == k
  {}

  /** The word of vjnz(r, k) takes run() k instructions further than the next one, backward for a negative k, if the
      register is not 0. */
  lemma JumpGoes(prog: seq<Insn>, v: Vm, r: nat, k: int)
    requires |v.mem| == CELLS && |prog| < 0x8000_0000 && v.pc < |prog| && r < 2 && -0x8000 <= k < 0x8000
    requires prog[v.pc] == Decode(Encode(JNZ, r, k % 0x1_0000)) && 0 <= v.pc + 1 + k < 0x8000_0000
    ensures VmStep(prog, v) == v.(pc := if (if r == 0 then v.a else v.b) != 0 then v.pc + 1 + k else v.pc + 1)
  {
    DecodeEncode(JNZ, r, k % 0x1_0000);
    OffsetBack(k);
    PcNext(v.pc, 0);
    PcNext(v.pc, k);
    hide Wrap, Offset, Decode, Encode;
  }

  /** And its code goes to where the code of that instruction starts. */
  lemma CompiledJumpGoes(prog: seq<Insn>, lay: Layout, i: nat, r: nat, k: int, s: State, env: Env)
    requires WellFormed(prog) && i < |prog| && r < 2 && -0x8000 <= k < 0x8000
    requires prog[i] == Decode(Encode(JNZ, r, k % 0x1_0000)) && s.status.Running? && s.pc == Find(Compile(prog, lay), i)
    ensures var target := if (if r == 0 then s.regs.esi else s.regs.edi) != 0 then i + 1 + k else i + 1;
      && 0 <= target <= |prog|
      && (target < |prog| ==> Steps(Compile(prog, lay), env, s, 3).pc == Find(Compile(prog, lay), target))
  {
    assert GoodInsn(prog, i);
    HostIs(s, r);
    hide Compile, Steps, Off, Find, WellFormed, GoodInsn, Decode, Encode, Offset, Host;
    DecodeEncode(JNZ, r, k % 0x1_0000);
    OffsetBack(k);
    FindLabel(prog, i, lay);
    JumpMachine(prog, lay, i, s, env);
    var target := if (if r == 0 then s.regs.esi else s.regs.edi) != 0 then i + 1 + k else i + 1;
    if target < |prog| { FindLabel(prog, target, lay); }
  }

  lemma HostIs(s: State, r: nat)
    requires r < 2
    ensures s.regs.Get(Host(r)) == if r == 0 then s.regs.esi else s.regs.edi
  {}

  /** One block of machine code is one round of the interpreter. */
  lemma BlockRuns(prog: seq<Insn>, lay: Layout, v: Vm, s: State, env: Env, frame: seq<u32>, out0: seq<Event>) returns (k: nat)
    requires WellFormed(prog) && InStep(prog, lay, v, s, frame, out0) && v.pc < |prog| && env.printf == lay.printf
    ensures 1 <= k && InStep(prog, lay, VmStep(prog, v), Steps(Compile(prog, lay), env, s, k), frame, out0)
  {
    var i := v.pc;
    assert GoodInsn(prog, i);
    CodeAt(prog, i, lay);
    BlockHead(prog, i, lay);
    hide Compile, Off, VmStep, Block, Synced, Fold, Steps, CellsAgree;
    if prog[i].code == JNZ {
      k := 3;
      JumpRuns(prog, lay, v, s, env, frame, out0);
    } else {
      k := |Block(prog, i, lay)|;
      StraightBlock(prog, i, lay);
      FoldSteps(Compile(prog, lay), env, Block(prog, i, lay), s);
      StraightRuns(prog, lay, v, s, env, frame, out0);
    }
  }

  lemma StraightBlock(prog: seq<Insn>, i: nat, lay: Layout)
    requires i < |prog| && GoodInsn(prog, i) && prog[i].code != JNZ
    ensures forall x :: x in Block(prog, i, lay) ==> Straight(x)
  {
    var d := prog[i];
    var body := Body(d, i, lay);
    BodyNoLabel(d, i, lay);
    hide Body;
    assert Block(prog, i, lay) == [Lab(i)] + body;
    assert forall x :: x in [Lab(i)] + body ==> x == Lab(i) || x in body;
  }

  /** What run() starts from: both registers 0, the first three cells 0 and the others as they are. */
  function VmStart(mem: seq<u32>): Vm {
    Vm(0, 0, 0, mem, [])
  }

  /** The caller of the compiled function: mem_ holds the cells, and the code starts at its first instruction. */
  ghost predicate Entry(lay: Layout, mem: seq<u32>, s: State, env: Env) {
    && |mem| == CELLS && lay.mem + 4 * CELLS <= W && env.printf == lay.printf
    && s.status.Running? && s.pc == 0
    && mem[0] == mem[1] == mem[2] == 0
    && forall i :: 3 <= i < CELLS ==> Load32(s.mem, lay.mem + 4 * i) == mem[i]
  }

  lemma XorRuns(env: Env, s: State, r: Reg, rest: seq<Instr>) returns (t: State)
    requires s.status.Running?
    ensures t == s.(pc := s.pc + 1, regs := s.regs.Set(r, 0), zf := true, cf := false)
    ensures Fold(env, [Xor(R(r), R(r))] + rest, s) == Fold(env, rest, t)
  {
    hide Load32;
    t := s.(pc := s.pc + 1, regs := s.regs.Set(r, 0), zf := true, cf := false);
    FoldStep(env, [Xor(R(r), R(r))] + rest, rest, s);
  }

  lemma PrologRuns(lay: Layout, s: State, env: Env)
    requires s.status.Running?
    ensures Fold(env, Prolog(lay), s)
         == s.(pc := s.pc + 9, regs := Regs(0, 0, 0, lay.mem, s.regs.ebp, 0, 0), zf := true, cf := false,
               stack := [s.regs.edi, s.regs.esi, s.regs.ebx] + s.stack)
  {
    hide Exec, Fold, Load32;
    var c8 := [Mov(R(EBX), I(lay.mem))];
    var c7 := [Xor(R(EDI), R(EDI))] + c8;
    var c6 := [Xor(R(ESI), R(ESI))] + c7;
    var c5 := [Xor(R(EDX), R(EDX))] + c6;
    var c4 := [Xor(R(ECX), R(ECX))] + c5;
    var c3 := [Xor(R(EAX), R(EAX))] + c4;
    var c2 := [Push(R(EDI))] + c3;
    var c1 := [Push(R(ESI))] + c2;
    assert Prolog(lay) == [Push(R(EBX))] + c1;
    var s1 := PushRuns(env, s, R(EBX), c1);
    var s2 := PushRuns(env, s1, R(ESI), c2);
    var s3 := PushRuns(env, s2, R(EDI), c3);
    assert s3.stack == [s.regs.edi, s.regs.esi, s.regs.ebx] + s.stack;
    var s4 := XorRuns(env, s3, EAX, c4);
    var s5 := XorRuns(env, s4, ECX, c5);
    var s6 := XorRuns(env, s5, EDX, c6);
    var s7 := XorRuns(env, s6, ESI, c7);
    var s8 := XorRuns(env, s7, EDI, c8);
    OneRuns(env, c8[0], s8);
    MoveRuns(env, s8, R(EBX), I(lay.mem));
  }

  /** After the prolog the compiled program is in step with the start of run(). */
  lemma StartRuns(prog: seq<Insn>, lay: Layout, mem: seq<u32>, s: State, env: Env)
    requires WellFormed(prog) && Entry(lay, mem, s, env)
    ensures InStep(prog, lay, VmStart(mem), Steps(Compile(prog, lay), env, s, 9), [s.regs.edi, s.regs.esi, s.regs.ebx] + s.stack, s.output)
  {
    hide Load32, Steps, Fold, Prolog, Compile, Exec, WellFormed, InStep, Block, Off, Straight, CellsAgree;
    var code := Compile(prog, lay);
    StartsWithProlog(prog, lay);
    PrologNoLabel(lay);
    FoldSteps(code, env, Prolog(lay), s);
    PrologRuns(lay, s, env);
    StartIsInStep(prog, lay, mem, s, env);
  }

  lemma StartIsInStep(prog: seq<Insn>, lay: Layout, mem: seq<u32>, s: State, env: Env)
    requires WellFormed(prog) && Entry(lay, mem, s, env)
    ensures var t := s.(pc := 9, regs := Regs(0, 0, 0, lay.mem, s.regs.ebp, 0, 0), zf := true, cf := false,
                        stack := [s.regs.edi, s.regs.esi, s.regs.ebx] + s.stack);
      InStep(prog, lay, VmStart(mem), t, t.stack, s.output)
  {
    hide Load32, Block;
    assert s.output + [] == s.output;
  }

  lemma StartsWithProlog(prog: seq<Insn>, lay: Layout)
    requires WellFormed(prog)
    ensures 9 <= |Compile(prog, lay)| && Compile(prog, lay)[0..9] == Prolog(lay) && |Prolog(lay)| == 9
  {}

  /** The epilog restores the callee-saved registers and the stack, and returns. */
  lemma EndRuns(prog: seq<Insn>, lay: Layout, v: Vm, s: State, env: Env, frame: seq<u32>, out0: seq<Event>)
    requires WellFormed(prog) && InStep(prog, lay, v, s, frame, out0) && v.pc == |prog| && |frame| >= 3
    ensures var t := Steps(Compile(prog, lay), env, s, 4);
      t == s.(pc := t.pc, status := Halted, stack := frame[3..], regs := s.regs.(edi := frame[0], esi := frame[1], ebx := frame[2]))
  {
    hide Exec, Fold, Load32, Steps, Compile, WellFormed, InStep, Straight;
    var code := Compile(prog, lay);
    EndsWithEpilog(prog, lay, v, s, frame, out0);
    FoldSteps(code, env, EPILOG, s);
    EpilogRuns(env, s, frame);
  }

  lemma EndsWithEpilog(prog: seq<Insn>, lay: Layout, v: Vm, s: State, frame: seq<u32>, out0: seq<Event>)
    requires WellFormed(prog) && InStep(prog, lay, v, s, frame, out0) && v.pc == |prog|
    ensures s.pc + 4 <= |Compile(prog, lay)| && Compile(prog, lay)[s.pc..s.pc + 4] == EPILOG && |EPILOG| == 4
    ensures s.status.Running? && s.stack == frame && forall i :: i in EPILOG ==> Straight(i)
  {
    hide Load32, CellsAgree, Block;
  }

  lemma EpilogRuns(env: Env, s: State, frame: seq<u32>)
    requires s.status.Running? && s.stack == frame && |frame| >= 3
    ensures var t := Fold(env, EPILOG, s);
      t == s.(pc := t.pc, status := Halted, stack := frame[3..], regs := s.regs.(edi := frame[0], esi := frame[1], ebx := frame[2]))
  {
    hide Exec, Fold, Load32;
    var c3 := [Ret];
    var c2 := [Pop(EBX)] + c3;
    var c1 := [Pop(ESI)] + c2;
    assert EPILOG == [Pop(EDI)] + c1;
    var s1 := PopRuns(env, s, EDI, c1);
    var s2 := PopRuns(env, s1, ESI, c2);
    var s3 := PopRuns(env, s2, EBX, c3);
    OneRuns(env, Ret, s3);
    RetRuns(env, s3);
    assert s3.stack == frame[3..];
  }

  lemma VmEnded(prog: seq<Insn>, v: Vm)
    requires |v.mem| == CELLS
    ensures v.pc >= |prog| ==> VmStep(prog, v) == v
  {}

  /** After n rounds of run() the compiled program has come to the start of the same instruction. */
  ghost predicate Reached(prog: seq<Insn>, lay: Layout, mem: seq<u32>, s: State, env: Env, n: nat, k: nat)
    requires WellFormed(prog) && |mem| == CELLS
  {
    var v := VmSteps(prog, VmStart(mem), n);
    && InStep(prog, lay, v, Steps(Compile(prog, lay), env, s, k), [s.regs.edi, s.regs.esi, s.regs.ebx] + s.stack, s.output)
    && (v.pc < |prog| ==> k >= n)
  }

  lemma {:induction false} RoundsRun(prog: seq<Insn>, lay: Layout, mem: seq<u32>, s: State, env: Env, n: nat) returns (k: nat)
    requires WellFormed(prog) && Entry(lay, mem, s, env)
    ensures Reached(prog, lay, mem, s, env, n, k)
  {
    hide Reached, WellFormed;
    if n == 0 {
      k := 9;
      FirstRound(prog, lay, mem, s, env);
    } else {
      k := RoundsRun(prog, lay, mem, s, env, n - 1);
      k := NextRound(prog, lay, mem, s, env, n - 1, k);
    }
  }

  lemma FirstRound(prog: seq<Insn>, lay: Layout, mem: seq<u32>, s: State, env: Env)
    requires WellFormed(prog) && Entry(lay, mem, s, env)
    ensures Reached(prog, lay, mem, s, env, 0, 9)
  {
    hide WellFormed, Entry, Steps, Compile, InStep;
    StartRuns(prog, lay, mem, s, env);
  }

  lemma NextRound(prog: seq<Insn>, lay: Layout, mem: seq<u32>, s: State, env: Env, n: nat, k: nat) returns (k': nat)
    requires WellFormed(prog) && |mem| == CELLS && env.printf == lay.printf && Reached(prog, lay, mem, s, env, n, k)
    ensures Reached(prog, lay, mem, s, env, n + 1, k')
  {
    hide WellFormed, Steps, Compile, InStep, VmStep;
    var code, frame := Compile(prog, lay), [s.regs.edi, s.regs.esi, s.regs.ebx] + s.stack;
    var v := VmSteps(prog, VmStart(mem), n);
    VmEnded(prog, v);
    k' := k;
    if v.pc < |prog| {
      var j := BlockRuns(prog, lay, v, Steps(code, env, s, k), env, frame, s.output);
      StepsAdd(code, env, s, k, j);
      k' := k + j;
    }
  }

  /** What the compiled function leaves behind when the interpreter has ended in state v. */
  ghost predicate Finished(lay: Layout, v: Vm, s: State, t: State)
    requires |v.mem| == CELLS
  {
    && t.status.Halted? && t.output == s.output + v.out
    && t.regs.ebx == s.regs.ebx && t.regs.esi == s.regs.esi && t.regs.edi == s.regs.edi && t.stack == s.stack
    && CellsAgree(lay, v.mem, t)
  }

  /** If run() ends, so does the compiled program, with the same PUT events and the same cells. */
  lemma CompiledEnds(prog: seq<Insn>, lay: Layout, mem: seq<u32>, s: State, env: Env, n: nat) returns (k: nat)
    requires WellFormed(prog) && Entry(lay, mem, s, env)
    requires VmSteps(prog, VmStart(mem), n).pc >= |prog|
    ensures Finished(lay, VmSteps(prog, VmStart(mem), n), s, Steps(Compile(prog, lay), env, s, k))
  {
    k := RoundsRun(prog, lay, mem, s, env, n);
    LastRound(prog, lay, mem, s, env, n, k);
    k := k + 4;
  }

  lemma LastRound(prog: seq<Insn>, lay: Layout, mem: seq<u32>, s: State, env: Env, n: nat, k: nat)
    requires WellFormed(prog) && |mem| == CELLS && Reached(prog, lay, mem, s, env, n, k)
    requires VmSteps(prog, VmStart(mem), n).pc >= |prog|
    ensures Finished(lay, VmSteps(prog, VmStart(mem), n), s, Steps(Compile(prog, lay), env, s, k + 4))
  {
    hide WellFormed, Steps, Compile, VmStep, VmSteps, CellsAgree, Off;
    var code, frame := Compile(prog, lay), [s.regs.edi, s.regs.esi, s.regs.ebx] + s.stack;
    var v := VmSteps(prog, VmStart(mem), n);
    var u := Steps(code, env, s, k);
    EndRuns(prog, lay, v, u, env, frame, s.output);
    assert frame[3..] == s.stack;
    StepsAdd(code, env, s, k, 4);
    CellsSame(lay, v.mem, u, Steps(code, env, u, 4));
  }

  lemma CellsSame(lay: Layout, mem: seq<u32>, s: State, t: State)
    requires |mem| == CELLS && CellsAgree(lay, mem, s)
    requires t.mem == s.mem && t.regs.eax == s.regs.eax && t.regs.ecx == s.regs.ecx && t.regs.edx == s.regs.edx
    ensures CellsAgree(lay, mem, t)
  {
    hide Load32;
  }

  lemma ReachedGoesOn(prog: seq<Insn>, lay: Layout, mem: seq<u32>, s: State, env: Env, n: nat, k: nat)
    requires WellFormed(prog) && |mem| == CELLS && Reached(prog, lay, mem, s, env, n, k) && VmSteps(prog, VmStart(mem), n).pc < |prog|
    ensures k >= n && Steps(Compile(prog, lay), env, s, k).status.Running?
  {
    hide Compile, VmSteps, Steps, WellFormed, CellsAgree, Off;
  }

  /** If run() is still going after n rounds, the compiled program is still going after n steps. */
  lemma CompiledGoesOn(prog: seq<Insn>, lay: Layout, mem: seq<u32>, s: State, env: Env, n: nat)
    requires WellFormed(prog) && Entry(lay, mem, s, env)
    requires VmSteps(prog, VmStart(mem), n).pc < |prog|
    ensures Steps(Compile(prog, lay), env, s, n).status.Running?
  {
    hide Compile, VmSteps, Steps, Entry, WellFormed, Reached;
    EntryCells(lay, mem, s, env);
    var code := Compile(prog, lay);
    var k := RoundsRun(prog, lay, mem, s, env, n);
    ReachedGoesOn(prog, lay, mem, s, env, n, k);
    var u := Steps(code, env, s, n);
    if !u.status.Running? {
      StepsAdd(code, env, s, n, k - n);
      StepsHalted(code, env, u, k - n);
    }
  }

  /** Whole runs: the compiled program halts exactly when the interpreter ends, and then with its outcome. */
  lemma CompilationPreservesMeaning(prog: seq<Insn>, lay: Layout, mem: seq<u32>, s: State, env: Env)
    requires WellFormed(prog) && Entry(lay, mem, s, env)
    ensures (exists k: nat :: !Steps(Compile(prog, lay), env, s, k).status.Running?)
       <==> (exists n: nat :: VmSteps(prog, VmStart(mem), n).pc >= |prog|)
    ensures forall k: nat, n: nat ::
      !Steps(Compile(prog, lay), env, s, k).status.Running? && VmSteps(prog, VmStart(mem), n).pc >= |prog| ==>
        Finished(lay, VmSteps(prog, VmStart(mem), n), s, Steps(Compile(prog, lay), env, s, k))
  {
    hide Compile, Steps, VmSteps, Finished, Entry, WellFormed;
    EntryCells(lay, mem, s, env);
    var code := Compile(prog, lay);
    if k: nat :| !Steps(code, env, s, k).status.Running? {
      if VmSteps(prog, VmStart(mem), k).pc < |prog| { CompiledGoesOn(prog, lay, mem, s, env, k); }
    }
    forall k: nat, n: nat | !Steps(code, env, s, k).status.Running? && VmSteps(prog, VmStart(mem), n).pc >= |prog|
      ensures Finished(lay, VmSteps(prog, VmStart(mem), n), s, Steps(code, env, s, k))
    {
      var j := HaltsToo(prog, lay, mem, s, env, n);
      HaltsOnce(code, env, s, k, j);
    }
    if n: nat :| VmSteps(prog, VmStart(mem), n).pc >= |prog| {
      var j := HaltsToo(prog, lay, mem, s, env, n);
    }
  }

  lemma EntryCells(lay: Layout, mem: seq<u32>, s: State, env: Env)
    requires Entry(lay, mem, s, env)
    ensures |mem| == CELLS
  {
    hide Load32;
  }

  lemma HaltsToo(prog: seq<Insn>, lay: Layout, mem: seq<u32>, s: State, env: Env, n: nat) returns (k: nat)
    requires WellFormed(prog) && Entry(lay, mem, s, env) && |mem| == CELLS && VmSteps(prog, VmStart(mem), n).pc >= |prog|
    ensures Finished(lay, VmSteps(prog, VmStart(mem), n), s, Steps(Compile(prog, lay), env, s, k))
    ensures !Steps(Compile(prog, lay), env, s, k).status.Running?
  {
    hide Compile, Steps, VmSteps, Finished, Entry, WellFormed;
    k := CompiledEnds(prog, lay, mem, s, env, n);
    FinishedHalts(lay, VmSteps(prog, VmStart(mem), n), s, Steps(Compile(prog, lay), env, s, k));
  }

  lemma FinishedHalts(lay: Layout, v: Vm, s: State, t: State)
    requires |v.mem| == CELLS && Finished(lay, v, s, t)
    ensures t.status.Halted?
  {}

  function Decoded(code: seq<u32>): (prog: seq<Insn>)
    ensures |prog| == |code| && forall i :: 0 <= i < |code| ==> prog[i] == Decode(code[i])
  {
    seq(|code|, i requires 0 <= i < |code| => Decode(code[i]))
  }

  class ToyMachine {
    var code_: seq<u32>
    var mark_: nat
    const mem_: array<u32>
    var printed: seq<Event>

    constructor ()
      ensures code_ == [] && mark_ == 0 && printed == [] && fresh(mem_) && mem_.Length == CELLS
      ensures forall i :: 0 <= i < CELLS ==> mem_[i] == 0
    {
      code_, mark_, printed := [], 0, [];
      mem_ := new u32[CELLS](_ => 0);
    }

    /** encode(): every v-instruction appends one word, which decodes to what was asked for. */
    method Append(code: nat, r: nat, imm: Imm)
      requires code <= JNZ && r < 2
      modifies this`code_
      ensures Decoded(code_) == Decoded(old(code_)) + [Insn(code, r, imm)]
    {
      DecodeEncode(code, r, imm);
      code_ := code_ + [Encode(code, r, imm)];
    }

    method SetMark()
      modifies this`mark_
      ensures mark_ == |code_|
    {
      mark_ := |code_|;
    }

    /** What vjnz needs to go back to the mark. */
    method GetMarkOffset() returns (offset: int)
      ensures |code_| + 1 + offset == mark_
    {
      offset := mark_ - |code_| - 1;
    }

    /** vjnz */
    method Vjnz(r: nat, offset: int)
      requires r < 2
      modifies this`code_
      ensures Decoded(code_) == Decoded(old(code_)) + [Decode(Encode(JNZ, r, offset % 0x1_0000))]
    {
      DecodeEncode(JNZ, r, offset % 0x1_0000);
      Append(JNZ, r, offset % 0x1_0000);
    }

    /** run(), cut off after a number of rounds. */
    method Run(rounds: nat)
      requires mem_.Length == CELLS && WellFormed(Decoded(code_))
      modifies this`printed, mem_
      ensures var v := VmSteps(Decoded(code_), VmStart(old(mem_[..])), rounds);
        mem_[..] == v.mem && printed == old(printed) + v.out
    {
      hide VmSteps;
      ghost var prog, start := Decoded(code_), VmStart(mem_[..]);
      ghost var out: seq<Event> := [];
      var pc, a, b, n := 0, 0, 0, 0;
      var end := |code_|;
      StepsZero(prog, start);
      while n < rounds
        invariant n <= rounds && 0 <= pc < 0x1_0000_0000 && 0 <= a < 0x1_0000_0000 && 0 <= b < 0x1_0000_0000
        invariant printed == old(printed) + out
        invariant Vm(pc, a, b, mem_[..], out) == VmSteps(prog, start, n)
      {
        if pc >= end {
          StepsEnded(prog, start, n, rounds);
          return;
        }
        ghost var v := VmSteps(prog, start, n);
        assert GoodInsn(prog, pc);
        var d := Decode(code_[pc]);
        var x := if d.r == 0 then a else b;
        var jump := 0;
        if d.code == LDI { x := d.imm; }
        else if d.code == LD { x := mem_[d.imm]; }
        else if d.code == ST { mem_[d.imm] := x; }
        else if d.code == ADD { x := Wrap(x + mem_[d.imm]); }
        else if d.code == ADDI { x := Wrap(x + d.imm); }
        else if d.code == SUB { x := Wrap(x - mem_[d.imm]); }
        else if d.code == SUBI { x := Wrap(x - d.imm); }
        else if d.code == PUT {
          printed := printed + [Printf(Wrap(65 + d.r), x, x)];
          out := out + [Printf(Wrap(65 + d.r), x, x)];
        } else if x != 0 { jump := Offset(d.imm); }
        if d.r == 0 { a := x; } else { b := x; }
        pc := Wrap(Wrap(pc + jump) + 1);
        assert Vm(pc, a, b, mem_[..], out) == VmStep(prog, v);
        StepsNext(prog, start, n);
        n := n + 1;
      }
    }

    /** recompile() */
    method Recompile(lay: Layout) returns (jit: seq<Instr>)
      requires WellFormed(Decoded(code_))
      ensures jit == Compile(Decoded(code_), lay)
    {
      hide Body;
      ghost var prog := Decoded(code_);
      jit := Prolog(lay);
      var labelNum, pc := 0, 0;
      while pc < |code_|
        invariant 0 <= pc == labelNum <= |code_| && jit == Prolog(lay) + Blocks(prog, pc, lay)
      {
        assert GoodInsn(prog, pc);
        var d := Decode(code_[pc]);
        jit := jit + [Lab(labelNum)];
        labelNum := labelNum + 1;
        jit := jit + Body(d, pc, lay);
        assert jit == Prolog(lay) + (Blocks(prog, pc, lay) + Block(prog, pc, lay));
        pc := pc + 1;
      }
      jit := jit + EPILOG;
    }
  }

  lemma StepsZero(prog: seq<Insn>, v: Vm)
    requires |v.mem| == CELLS
    ensures VmSteps(prog, v, 0) == v
  {}

  lemma StepsNext(prog: seq<Insn>, v: Vm, n: nat)
    requires |v.mem| == CELLS
    ensures VmSteps(prog, v, n + 1) == VmStep(prog, VmSteps(prog, v, n))
  {}

  lemma {:induction false} StepsEnded(prog: seq<Insn>, v: Vm, n: nat, m: nat)
    requires |v.mem| == CELLS && n <= m && VmSteps(prog, v, n).pc >= |prog|
    ensures VmSteps(prog, v, m) == VmSteps(prog, v, n)
  {
    hide VmStep;
    if n < m {
      StepsEnded(prog, v, n, m - 1);
      VmEnded(prog, VmSteps(prog, v, n));
    }
  }
}
