/** The part of the 32-bit x86 that the generated programs of the samples use. The call stack is kept apart
    from byte-addressed data memory: element k of `stack` is the word at [esp+4k]. */
module Machine {
  import opened Arith
  import opened Bytes

  type u32 = x: int | 0 <= x < 0x1_0000_0000

  datatype Reg = EAX | ECX | EDX | EBX | EBP | ESI | EDI

  datatype Regs = Regs(eax: u32, ecx: u32, edx: u32, ebx: u32, ebp: u32, esi: u32, edi: u32) {
    function Get(r: Reg): u32 {
      match r
      case EAX => eax case ECX => ecx case EDX => edx case EBX => ebx
      case EBP => ebp case ESI => esi case EDI => edi
    }

    function Set(r: Reg, v: u32): Regs {
      match r
      case EAX => this.(eax := v) case ECX => this.(ecx := v) case EDX => this.(edx := v) case EBX => this.(ebx := v)
      case EBP => this.(ebp := v) case ESI => this.(esi := v) case EDI => this.(edi := v)
    }
  }

  /** Data memory; a byte never written reads as 0. */
  type Memory = map<u32, u8>

  function Load8(m: Memory, a: u32): u8 {
    if a in m then m[a] else 0
  }

  function Store8(m: Memory, a: u32, v: u8): Memory {
    m[a := v]
  }

  /** Addresses wrap at 2^32. */
  function At(a: u32, k: u8): u32 {
    if a + k < 0x1_0000_0000 then a + k else a + k - 0x1_0000_0000
  }

  function Load32(m: Memory, a: u32): u32 {
    Load8(m, a) + 0x100 * Load8(m, At(a, 1)) + 0x1_0000 * Load8(m, At(a, 2)) + 0x100_0000 * Load8(m, At(a, 3))
  }

  function Store32(m: Memory, a: u32, v: u32): Memory {
    m[a := v % 0x100][At(a, 1) := v / 0x100 % 0x100][At(a, 2) := v / 0x1_0000 % 0x100][At(a, 3) := v / 0x100_0000]
  }

  /** A word that fits below 2^32 reads back, and a store leaves every disjoint word alone. */
  lemma LoadStored(m: Memory, a: u32, v: u32)
    requires a + 4 <= W
    ensures Load32(Store32(m, a, v), a) == v
  {
    assert At(a, 1) == a + 1 && At(a, 2) == a + 2 && At(a, 3) == a + 3;
    ByteSum(v);
  }

  lemma LoadElsewhere(m: Memory, a: u32, v: u32, b: u32)
    requires b + 4 <= a <= W - 4 || a + 4 <= b <= W - 4
    ensures Load32(Store32(m, a, v), b) == Load32(m, b)
  {
    assert At(a, 1) == a + 1 && At(a, 2) == a + 2 && At(a, 3) == a + 3;
    assert At(b, 1) == b + 1 && At(b, 2) == b + 2 && At(b, 3) == b + 3;
    assert forall x: u32 :: x < a || a + 4 <= x ==> Load8(Store32(m, a, v), x) == Load8(m, x);
  }

  lemma ByteSum(v: u32)
    ensures v == v % 0x100 + 0x100 * (v / 0x100 % 0x100) + 0x1_0000 * (v / 0x1_0000 % 0x100) + 0x100_0000 * (v / 0x100_0000)
  {
    var a, b := v / 0x100, v / 0x1_0000;
    assert a / 0x100 == b && b / 0x100 == v / 0x100_0000;
  }

  /** Add wraps; a negative or large immediate is given by its residue. */
  function Wrap(x: int): u32 {
    x % 0x1_0000_0000
  }

  lemma WrapIs(x: int)
    ensures (x - Wrap(x)) % 0x1_0000_0000 == 0
  {}

  datatype Operand =
    | R(reg: Reg)
    | I(imm: u32)
    | M(base: Reg, disp: u32)
    | Arg(slot: nat)

  datatype Instr =
    | Mov(dst: Operand, src: Operand)
    | Add(dst: Operand, src: Operand)
    | Adc(dst: Operand, src: Operand)
    | Sub(dst: Operand, src: Operand)
    | Xor(dst: Operand, src: Operand)
    | Test(a: Operand, b: Operand)
    | Mul(reg: Reg)
    | Shr(reg: Reg, count: nat)
    | Push(src: Operand)
    | Pop(reg: Reg)
    | Drop(words: nat)                   // add esp, 4 * words
    | Movzx8(reg: Reg, base: Reg)        // movzx reg, byte [base]
    | Mov8(base: Reg)                    // mov byte [base], al
    | Add8(base: Reg, imm: int)          // add byte [base], imm; inc and dec are imm 1 and -1 with no carry
    | Call(target: Operand)
    | Lab(name: int)
    | Jmp(name: int)
    | Jz(name: int)
    | Jnz(name: int)
    | Ret

  datatype Event = Printf(reg: u32, value: u32, value2: u32) | Putchar(ch: u8)

  datatype Status = Running | Halted | Fault

  datatype State = State(pc: nat, regs: Regs, mem: Memory, stack: seq<u32>, zf: bool, cf: bool,
                         input: seq<u8>, output: seq<Event>, calls: nat, status: Status)

  /** Addresses of the three C functions, and what the n-th call leaves in eax, ecx, edx, the flags and its
      argument slots: a callee may overwrite all of them. */
  datatype Env = Env(printf: u32, putchar: u32, getchar: u32, junk: nat -> Junk)
  datatype Junk = Junk(eax: u32, ecx: u32, edx: u32, zf: bool, cf: bool, slot: nat -> u32)

  function Read(s: State, o: Operand): (v: u32)
    requires o.Arg? ==> o.slot < |s.stack|
  {
    match o
    case R(r) => s.regs.Get(r)
    case I(i) => i
    case M(b, d) => Load32(s.mem, Wrap(s.regs.Get(b) + d))
    case Arg(k) => s.stack[k]
  }

  function Write(s: State, o: Operand, v: u32): State {
    match o
    case R(r) => s.(regs := s.regs.Set(r, v))
    case M(b, d) => s.(mem := Store32(s.mem, Wrap(s.regs.Get(b) + d), v))
    case Arg(k) => if k < |s.stack| then s.(stack := s.stack[k := v]) else s.(status := Fault)
    case I(_) => s.(status := Fault)
  }

  function Slots(j: Junk, n: nat): (r: seq<u32>)
    ensures |r| == n
  {
    if n == 0 then [] else Slots(j, n - 1) + [j.slot(n - 1)]
  }

  function Clobber(s: State, j: Junk, args: nat): State
    requires args <= |s.stack|
  {
    s.(regs := s.regs.(eax := j.eax, ecx := j.ecx, edx := j.edx), zf := j.zf, cf := j.cf, calls := s.calls + 1,
       stack := Slots(j, args) + s.stack[args..])
  }

  /** What a C function called with its arguments on top of the stack does (cdecl). */
  function External(env: Env, s: State, target: u32): State {
    var j := env.junk(s.calls);
    if target == env.printf && |s.stack| >= 4 then
      Clobber(s, j, 4).(output := s.output + [Printf(s.stack[1], s.stack[2], s.stack[3])])
    else if target == env.putchar && |s.stack| >= 1 then
      Clobber(s, j, 1).(output := s.output + [Putchar(s.stack[0] % 0x100)])
    else if target == env.getchar then
      var c := Clobber(s, j, 0);
      if s.input == [] then c.(regs := c.regs.(eax := 0xFFFF_FFFF))
      else c.(regs := c.regs.(eax := s.input[0]), input := s.input[1..])
    else
      s.(status := Fault)
  }

  predicate Readable(s: State, o: Operand) {
    o.Arg? ==> o.slot < |s.stack|
  }

  /** One instruction that is not a jump. The program counter is moved by Step. */
  function Exec(env: Env, i: Instr, s: State): State {
    match i
    case Mov(d, o) => if Readable(s, o) then Write(s, d, Read(s, o)) else s.(status := Fault)
    case Add(d, o) => Arith2(s, d, o, 0, true)
    case Adc(d, o) => Arith2(s, d, o, if s.cf then 1 else 0, true)
    case Sub(d, o) => Arith2(s, d, o, 0, false)
    case Xor(R(d), R(o)) =>
      if d == o then Write(s, R(d), 0).(zf := true, cf := false) else s.(status := Fault)
    case Test(R(x), R(y)) =>
      if x == y then s.(zf := s.regs.Get(x) == 0, cf := false) else s.(status := Fault)
    case Mul(r) =>
      ProductFits(s.regs.eax, s.regs.Get(r));
      var p: nat := s.regs.eax * s.regs.Get(r);
      HighWord(p);
      s.(regs := s.regs.(eax := p % 0x1_0000_0000, edx := p / 0x1_0000_0000), cf := p >= W)
    case Shr(r, c) => s.(regs := s.regs.Set(r, ShiftRight(s.regs.Get(r), c % 32)))
    case Push(o) => if Readable(s, o) then s.(stack := [Read(s, o)] + s.stack) else s.(status := Fault)
    case Pop(r) =>
      if s.stack == [] then s.(status := Fault)
      else s.(regs := s.regs.Set(r, s.stack[0]), stack := s.stack[1..])
    case Drop(n) => if n <= |s.stack| then s.(stack := s.stack[n..]) else s.(status := Fault)
    case Movzx8(r, b) => s.(regs := s.regs.Set(r, Load8(s.mem, s.regs.Get(b))))
    case Mov8(b) => s.(mem := Store8(s.mem, s.regs.Get(b), s.regs.eax % 0x100))
    case Add8(b, k) =>
      s.(mem := Store8(s.mem, s.regs.Get(b), (Load8(s.mem, s.regs.Get(b)) + k) % 0x100),
          zf := (Load8(s.mem, s.regs.Get(b)) + k) % 0x100 == 0)
    case Call(o) => if Readable(s, o) then External(env, s, Read(s, o)) else s.(status := Fault)
    case Lab(_) => s
    case Ret => s.(status := Halted)
    case _ => s.(status := Fault)
  }

  function Arith2(s: State, d: Operand, o: Operand, carry: nat, plus: bool): State {
    if Readable(s, d) && Readable(s, o) then
      var v := if plus then Read(s, d) + Read(s, o) + carry else Read(s, d) - Read(s, o);
      Write(s, d, Wrap(v)).(cf := !(0 <= v < W), zf := Wrap(v) == 0)
    else s.(status := Fault)
  }

  lemma ProductFits(a: u32, b: u32)
    ensures 0 <= a * b <= 0xFFFF_FFFF * 0xFFFF_FFFF
  {
    MulMono(0, a, b); MulMono(a, 0xFFFF_FFFF, b); MulMono(b, 0xFFFF_FFFF, 0xFFFF_FFFF);
  }

  lemma HighWord(p: nat)
    requires p <= 0xFFFF_FFFF * 0xFFFF_FFFF
    ensures p / 0x1_0000_0000 < 0x1_0000_0000
  {}

  function ShiftRight(v: u32, c: nat): u32 {
    ShiftFits(v, Pow2(c));
    v / Pow2(c)
  }

  lemma ShiftFits(v: nat, p: nat)
    requires 1 <= p
    ensures 0 <= v / p <= v
  {
    DivBounds(v, p);
    NotAbove(v / p, p, v);
  }

  lemma NotAbove(q: int, p: nat, v: nat)
    requires q * p <= v < (q + 1) * p && 1 <= p
    ensures 0 <= q <= v
  {
    if q < 0 { MulMono(q + 1, 0, p); } else { MulMono(1, p, q); }
  }

  /** Index of the first definition of a label. */
  function Find(code: seq<Instr>, name: int): (p: nat)
    ensures p <= |code|
    ensures p < |code| ==> code[p] == Lab(name)
    ensures forall q :: 0 <= q < p ==> code[q] != Lab(name)
  {
    if code == [] || code[0] == Lab(name) then 0 else 1 + Find(code[1..], name)
  }

  function JumpTo(code: seq<Instr>, s: State, name: int): State {
    var p := Find(code, name);
    if p < |code| then s.(pc := p) else s.(status := Fault)
  }

  function Step(code: seq<Instr>, env: Env, s: State): State {
    if !s.status.Running? then s
    else if s.pc >= |code| then s.(status := Fault)
    else
      match code[s.pc]
      case Jmp(l) => JumpTo(code, s, l)
      case Jz(l) => if s.zf then JumpTo(code, s, l) else s.(pc := s.pc + 1)
      case Jnz(l) => if !s.zf then JumpTo(code, s, l) else s.(pc := s.pc + 1)
      case i => Exec(env, i, s).(pc := s.pc + 1)
  }

  function Steps(code: seq<Instr>, env: Env, s: State, n: nat): State
    decreases n
  {
    if n == 0 then s else Steps(code, env, Step(code, env, s), n - 1)
  }

  lemma {:induction false} StepsAdd(code: seq<Instr>, env: Env, s: State, m: nat, n: nat)
    ensures Steps(code, env, s, m + n) == Steps(code, env, Steps(code, env, s, m), n)
    decreases m
  {
    if m > 0 { StepsAdd(code, env, Step(code, env, s), m - 1, n); }
  }

  lemma {:induction false} StepsHalted(code: seq<Instr>, env: Env, s: State, n: nat)
    requires !s.status.Running?
    ensures Steps(code, env, s, n) == s
  {
    if n > 0 { StepsHalted(code, env, s, n - 1); }
  }

  predicate Straight(i: Instr) {
    !i.Jmp? && !i.Jz? && !i.Jnz?
  }

  /** Running a jump-free segment from its first instruction. */
  function Fold(env: Env, seg: seq<Instr>, s: State): State
  {
    if seg == [] || !s.status.Running? then s
    else Fold(env, seg[1..], Exec(env, seg[0], s).(pc := s.pc + 1))
  }

  lemma FoldStep(env: Env, seg: seq<Instr>, rest: seq<Instr>, s: State)
    requires s.status.Running? && |seg| == 1 + |rest| && seg[1..] == rest
    ensures Fold(env, seg, s) == Fold(env, rest, Exec(env, seg[0], s).(pc := s.pc + 1))
  {}

  lemma {:induction false} FoldPc(env: Env, seg: seq<Instr>, s: State)
    ensures Fold(env, seg, s).status.Running? ==> Fold(env, seg, s).pc == s.pc + |seg|
  {
    if seg != [] && s.status.Running? { FoldPc(env, seg[1..], Exec(env, seg[0], s).(pc := s.pc + 1)); }
  }

  lemma {:induction false} FoldAdd(env: Env, a: seq<Instr>, b: seq<Instr>, s: State)
    ensures Fold(env, a + b, s) == Fold(env, b, Fold(env, a, s))
  {
    if a == [] { assert a + b == b; }
    else {
      assert (a + b)[1..] == a[1..] + b;
      if s.status.Running? { FoldAdd(env, a[1..], b, Exec(env, a[0], s).(pc := s.pc + 1)); }
    }
  }

  /** A jump-free segment of a program runs instruction by instruction. */
  lemma {:induction false} FoldSteps(code: seq<Instr>, env: Env, seg: seq<Instr>, s: State)
    requires s.pc + |seg| <= |code| && code[s.pc..s.pc + |seg|] == seg
    requires forall i :: i in seg ==> Straight(i)
    ensures Steps(code, env, s, |seg|) == Fold(env, seg, s)
    decreases |seg|
  {
    if !s.status.Running? { StepsHalted(code, env, s, |seg|); }
    else if seg != [] {
      assert seg[0] == code[s.pc] && Straight(seg[0]);
      assert code[s.pc + 1..s.pc + |seg|] == seg[1..];
      FoldSteps(code, env, seg[1..], Step(code, env, s));
    }
  }

  lemma FoldNone(env: Env, s: State)
    ensures Fold(env, [], s) == s
  {}

  lemma OneRuns(env: Env, i: Instr, s: State)
    requires s.status.Running?
    ensures Fold(env, [i], s) == Exec(env, i, s).(pc := s.pc + 1)
  {
    hide Exec;
    FoldStep(env, [i], [], s);
  }

  lemma PushRuns(env: Env, s: State, o: Operand, rest: seq<Instr>) returns (t: State)
    requires s.status.Running? && Readable(s, o)
    ensures t == s.(pc := s.pc + 1, stack := [Read(s, o)] + s.stack)
    ensures Fold(env, [Push(o)] + rest, s) == Fold(env, rest, t)
  {
    hide Load32;
    t := s.(pc := s.pc + 1, stack := [Read(s, o)] + s.stack);
    FoldStep(env, [Push(o)] + rest, rest, s);
  }

  lemma PopRuns(env: Env, s: State, r: Reg, rest: seq<Instr>) returns (t: State)
    requires s.status.Running? && s.stack != []
    ensures t == s.(pc := s.pc + 1, regs := s.regs.Set(r, s.stack[0]), stack := s.stack[1..])
    ensures Fold(env, [Pop(r)] + rest, s) == Fold(env, rest, t)
  {
    hide Load32;
    t := s.(pc := s.pc + 1, regs := s.regs.Set(r, s.stack[0]), stack := s.stack[1..]);
    FoldStep(env, [Pop(r)] + rest, rest, s);
  }

  lemma RetRuns(env: Env, s: State)
    ensures Exec(env, Ret, s) == s.(status := Halted)
  {
    hide Load32;
  }

  /** A program halts in one state only. */
  lemma HaltsOnce(code: seq<Instr>, env: Env, s: State, k: nat, j: nat)
    requires !Steps(code, env, s, k).status.Running? && !Steps(code, env, s, j).status.Running?
    ensures Steps(code, env, s, k) == Steps(code, env, s, j)
  {
    var a, b := if k < j then k else j, if k < j then j else k;
    StepsAdd(code, env, s, a, b - a);
    StepsHalted(code, env, Steps(code, env, s, a), b - a);
  }
}
