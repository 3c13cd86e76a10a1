/** sample/bf.cpp: character-by-character meaning of a Brainfuck source, and its compiler to 32-bit x86. */
module Brainfuck {
  import opened Arith
  import opened Bytes
  import opened Machine

  /** What the stream extraction `is >> c` skips. */
  predicate IsSpace(c: char): (b: bool)
    ensures b <==> c == ' ' || 9 <= c as int <= 13
  {
    c == ' ' || c == '\t' || c == '\n' || c == '\r' || c as int == 11 || c as int == 12
  }

  predicate IsFolded(c: char) {
    c == '+' || c == '-' || c == '<' || c == '>'
  }

  /** Bracket depth before position i. */
  function Depth(src: string, i: nat): int
    requires i <= |src|
  {
    if i == 0 then 0
    else Depth(src, i - 1) + (if src[i - 1] == '[' then 1 else if src[i - 1] == ']' then -1 else 0)
  }

  predicate Balanced(src: string) {
    (forall i :: 0 <= i <= |src| ==> Depth(src, i) >= 0) && Depth(src, |src|) == 0
  }

  /** The first position from i on with depth d, and the last one up to i. */
  function Ahead(src: string, i: nat, d: int): (p: nat)
    requires i <= |src|
    ensures i <= p <= |src| + 1
    ensures p <= |src| ==> Depth(src, p) == d
    ensures forall q :: i <= q < p && q <= |src| ==> Depth(src, q) != d
    decreases |src| - i
  {
    if Depth(src, i) == d then i else if i == |src| then |src| + 1 else Ahead(src, i + 1, d)
  }

  function Back(src: string, i: nat, d: int): (p: int)
    requires i <= |src|
    ensures -1 <= p <= i
    ensures p >= 0 ==> Depth(src, p) == d
    ensures forall q :: p < q <= i ==> Depth(src, q) != d
  {
    if Depth(src, i) == d then i else if i == 0 then -1 else Back(src, i - 1, d)
  }

  /** The bracket that closes the one at o, and the one that opens the one at c. */
  function Close(src: string, o: nat): nat
    requires o < |src|
    ensures o <= Close(src, o) <= |src|
  {
    Ahead(src, o + 1, Depth(src, o)) - 1
  }

  function Open(src: string, c: nat): int
    requires c < |src|
  {
    Back(src, c, Depth(src, c + 1))
  }

  lemma {:induction false} DepthReaches(src: string, i: nat, d: int)
    requires i <= |src| && Depth(src, i) >= d && Depth(src, |src|) <= d
    ensures Ahead(src, i, d) <= |src|
    decreases |src| - i
  {
    if Depth(src, i) != d { DepthReaches(src, i + 1, d); }
  }

  lemma {:induction false} DepthReachesBack(src: string, i: nat, d: int)
    requires i <= |src| && Depth(src, i) >= d && d >= 0
    ensures Back(src, i, d) >= 0
  {
    if Depth(src, i) != d { DepthReachesBack(src, i - 1, d); }
  }

  lemma {:induction false} AheadAbove(src: string, i: nat, d: int)
    requires i <= |src| && Depth(src, i) > d
    ensures forall q :: i <= q < Ahead(src, i, d) && q <= |src| ==> Depth(src, q) > d
    decreases |src| - i
  {
    if i < |src| && Depth(src, i + 1) > d { AheadAbove(src, i + 1, d); }
  }

  lemma {:induction false} BackAbove(src: string, i: nat, d: int)
    requires i <= |src| && Depth(src, i) > d
    ensures forall q :: Back(src, i, d) < q <= i ==> Depth(src, q) > d
  {
    if i > 0 && Depth(src, i - 1) > d { BackAbove(src, i - 1, d); }
  }

  /** Brackets of a balanced source match in pairs. */
  lemma CloseOpens(src: string, o: nat)
    requires Balanced(src) && o < |src| && src[o] == '['
    ensures o < Close(src, o) < |src| && src[Close(src, o)] == ']' && Open(src, Close(src, o)) == o
    ensures Depth(src, Close(src, o) + 1) == Depth(src, o) && forall q :: o < q <= Close(src, o) ==> Depth(src, q) > Depth(src, o)
  {
    var d := Depth(src, o);
    DepthReaches(src, o + 1, d);
    AheadAbove(src, o + 1, d);
    var c := Close(src, o);
    assert Depth(src, c) > d;
  }

  lemma OpenCloses(src: string, c: nat)
    requires Balanced(src) && c < |src| && src[c] == ']'
    ensures 0 <= Open(src, c) < c && src[Open(src, c)] == '[' && Close(src, Open(src, c)) == c
  {
    var d := Depth(src, c + 1);
    DepthReachesBack(src, c, d);
    BackAbove(src, c, d);
    var o := Open(src, c);
    assert Depth(src, o + 1) > d;
    DepthReaches(src, o + 1, d);
  }

  datatype Bf = Bf(pc: nat, ptr: u32, mem: Memory, input: seq<u8>, output: seq<Event>)

  /** The byte getchar() delivers into a cell: at the end of the input it returns -1, whose low byte is 255. */
  function NextInput(input: seq<u8>): u8 {
    if input == [] then 255 else input[0]
  }

  /** The meaning of one character of the source. */
  function BfStep(src: string, b: Bf): Bf {
    if b.pc >= |src| then b
    else
      var c := src[b.pc];
      var next := b.(pc := b.pc + 1);
      if c == '+' then next.(mem := Store8(b.mem, b.ptr, (Load8(b.mem, b.ptr) + 1) % 0x100))
      else if c == '-' then next.(mem := Store8(b.mem, b.ptr, (Load8(b.mem, b.ptr) - 1) % 0x100))
      else if c == '>' then next.(ptr := Wrap(b.ptr + 1))
      else if c == '<' then next.(ptr := Wrap(b.ptr - 1))
      else if c == '.' then next.(output := b.output + [Putchar(Load8(b.mem, b.ptr))])
      else if c == ',' then
        next.(mem := Store8(b.mem, b.ptr, NextInput(b.input)), input := if b.input == [] then [] else b.input[1..])
      else if c == '[' then if Load8(b.mem, b.ptr) == 0 then b.(pc := Close(src, b.pc) + 1) else next
      else if c == ']' then if Open(src, b.pc) >= 0 then b.(pc := Open(src, b.pc)) else next
      else next
  }

  function BfSteps(src: string, b: Bf, n: nat): Bf
    decreases n
  {
    if n == 0 then b else BfSteps(src, BfStep(src, b), n - 1)
  }

  lemma {:induction false} BfStepsAdd(src: string, b: Bf, m: nat, n: nat)
    ensures BfSteps(src, b, m + n) == BfSteps(src, BfSteps(src, b, m), n)
    decreases m
  {
    hide BfStep;
    if m > 0 { BfStepsAdd(src, BfStep(src, b), m - 1, n); }
  }

  /** Where a run of c that is being folded ends: the first other character that is not white space. */
  function RunEnd(src: string, i: nat, c: char): (e: nat)
    requires i <= |src|
    ensures i <= e <= |src|
    ensures forall k :: i <= k < e ==> src[k] == c || IsSpace(src[k])
    ensures e < |src| ==> src[e] != c && !IsSpace(src[e])
    decreases |src| - i
  {
    if i < |src| && (src[i] == c || IsSpace(src[i])) then RunEnd(src, i + 1, c) else i
  }

  function Count(src: string, i: nat, e: nat, c: char): (n: nat)
    requires i <= e <= |src|
    ensures n <= e - i
    decreases e - i
  {
    if i == e then 0 else (if src[i] == c then 1 else 0) + Count(src, i + 1, e, c)
  }

  /** Where the compiler reads on after the token at i. */
  function Next(src: string, i: nat): (j: nat)
    requires i < |src|
    ensures i < j <= |src|
    ensures forall k :: i < k < j ==> src[k] == src[i] || IsSpace(src[k])
  {
    if IsFolded(src[i]) then RunEnd(src, i + 1, src[i]) else i + 1
  }

  function Sign(c: char, n: nat): int {
    if c == '+' || c == '>' then n else 0 - n
  }

  /** The code for the token at i. The labels of the bracket at o are 2o (B, before the test) and 2o+1 (F, after
      the closing bracket). */
  function Token(src: string, i: nat): seq<Instr>
    requires i < |src|
  {
    var c := src[i];
    var n := if IsFolded(c) then 1 + Count(src, i + 1, Next(src, i), c) else 0;
    if c == '+' || c == '-' then [Add8(EBP, Sign(c, n))]
    else if c == '>' || c == '<' then [Add(R(EBP), I(Wrap(Sign(c, n))))]
    else if c == '.' then [Movzx8(EAX, EBP), Push(R(EAX)), Call(R(ESI)), Pop(EAX)]
    else if c == ',' then [Call(R(EDI)), Mov8(EBP)]
    else if c == '[' then [Lab(2 * i), Movzx8(EAX, EBP), Test(R(EAX), R(EAX)), Jz(2 * i + 1)]
    else if c == ']' then [Jmp(2 * Open(src, i)), Lab(2 * Open(src, i) + 1)]
    else []
  }

  function Code(src: string, i: nat): seq<Instr>
    requires i <= |src|
    decreases |src| - i
  {
    if i == |src| then [] else Token(src, i) + Code(src, Next(src, i))
  }

  const PROLOG := [Push(R(EBP)), Push(R(ESI)), Push(R(EDI)), Mov(R(ESI), Arg(4)), Mov(R(EDI), Arg(5)), Mov(R(EBP), Arg(6))]
  const EPILOG := [Pop(EDI), Pop(ESI), Pop(EBP), Ret]

  function Compile(src: string): seq<Instr> {
    PROLOG + Code(src, 0) + EPILOG
  }

  /** The compiler reads a token at j when it has read one at i. */
  predicate Reads(src: string, i: nat, j: nat)
    requires i <= |src|
    decreases |src| - i
  {
    i == j || (i < |src| && i < j && Reads(src, Next(src, i), j))
  }

  /** Brackets are never folded into a run. */
  lemma {:induction false} ReadsBracket(src: string, i: nat, j: nat)
    requires i <= j < |src| && (src[j] == '[' || src[j] == ']')
    ensures Reads(src, i, j)
    decreases |src| - i
  {
    if i < j {
      var n := Next(src, i);
      assert !(src[j] == src[i] && IsFolded(src[i])) && !IsSpace(src[j]);
      assert n <= j;
      ReadsBracket(src, Next(src, i), j);
    }
  }

  lemma {:induction false} ReadsNext(src: string, i: nat, j: nat)
    requires i <= |src| && j < |src| && Reads(src, i, j)
    ensures Reads(src, i, Next(src, j))
    decreases |src| - i
  {
    if i < j { ReadsNext(src, Next(src, i), j); }
  }

  /** Position of a token in the compiled program. */
  function At(src: string, i: nat): int
    requires i <= |src|
  {
    6 + |Code(src, 0)| - |Code(src, i)|
  }

  lemma {:induction false} CodeSuffix(src: string, i: nat, j: nat)
    requires i <= |src| && j <= |src| && Reads(src, i, j)
    ensures |Code(src, j)| <= |Code(src, i)| && Code(src, i)[|Code(src, i)| - |Code(src, j)|..] == Code(src, j)
    decreases |src| - i
  {
    hide Token;
    if i < j {
      CodeSuffix(src, Next(src, i), j);
      var a, rest, all := Token(src, i), Code(src, Next(src, i)), Code(src, i);
      var k := |all| - |Code(src, j)|;
      assert all == a + rest && all[k..] == rest[k - |a|..];
    }
  }

  lemma TokenAt(src: string, i: nat)
    requires i < |src| && Reads(src, 0, i)
    ensures var a, t := At(src, i), Token(src, i);
      6 <= a && a + |t| + 4 <= |Compile(src)| && Compile(src)[a..a + |t|] == t && At(src, Next(src, i)) == a + |t|
  {
    hide Token, Code;
    CodeSuffix(src, 0, i);
    CodeUnfold(src, i);
    var all, t, rest := Code(src, 0), Token(src, i), Code(src, Next(src, i));
    SliceInside(PROLOG, all, EPILOG, |all| - |Code(src, i)|, t, rest);
  }

  lemma SliceInside(p: seq<Instr>, all: seq<Instr>, e: seq<Instr>, k: nat, t: seq<Instr>, rest: seq<Instr>)
    requires k <= |all| && all[k..] == t + rest
    ensures (p + all + e)[|p| + k..|p| + k + |t|] == t
  {
    assert all[k..][..|t|] == t;
    assert (p + all + e)[|p| + k..|p| + k + |t|] == all[k..k + |t|];
  }

  lemma CodeUnfold(src: string, i: nat)
    requires i < |src|
    ensures Code(src, i) == Token(src, i) + Code(src, Next(src, i))
  {}

  lemma TokenLabels(src: string, i: nat, x: Instr)
    requires i < |src| && x in Token(src, i) && x.Lab?
    ensures (src[i] == '[' && x == Lab(2 * i)) || (src[i] == ']' && x == Lab(2 * Open(src, i) + 1))
  {}

  /** Tokens read before j do not define the labels of a bracket that is defined at j or later. */
  lemma {:induction false} LabelNotBefore(src: string, i: nat, j: nat, o: nat, name: int)
    requires Balanced(src) && i <= j <= |src| && Reads(src, i, j) && o < |src| && src[o] == '['
    requires (name == 2 * o && j <= o) || (name == 2 * o + 1 && j <= Close(src, o))
    ensures |Code(src, j)| <= |Code(src, i)|
    ensures forall q :: 0 <= q < |Code(src, i)| - |Code(src, j)| ==> Code(src, i)[q] != Lab(name)
    decreases |src| - i
  {
    hide Token, Code;
    CodeSuffix(src, i, j);
    if i < j {
      LabelNotBefore(src, Next(src, i), j, o, name);
      CodeUnfold(src, i);
      var t, rest, all := Token(src, i), Code(src, Next(src, i)), Code(src, i);
      if src[i] == ']' { OpenCloses(src, i); }
      forall q | 0 <= q < |all| - |Code(src, j)| ensures all[q] != Lab(name) {
        if q < |t| {
          assert all[q] == t[q];
          if t[q].Lab? { TokenLabels(src, i, t[q]); }
        } else { assert all[q] == rest[q - |t|]; }
      }
    }
  }

  lemma FindFirst(code: seq<Instr>, name: int, o: nat)
    requires o < |code| && code[o] == Lab(name) && forall q :: 0 <= q < o ==> code[q] != Lab(name)
    ensures Find(code, name) == o
  {}

  /** Where the jump of a bracket leads: B to the test, F to just behind the closing bracket's jump. */
  lemma FindLabels(src: string, o: nat)
    requires Balanced(src) && o < |src| && src[o] == '['
    ensures Find(Compile(src), 2 * o) == At(src, o)
    ensures Find(Compile(src), 2 * o + 1) == At(src, Close(src, o)) + 1
  {
    var c := Close(src, o);
    CloseOpens(src, o);
    FindOne(src, o, o, 2 * o, 0);
    FindOne(src, o, c, 2 * o + 1, 1);
  }

  lemma FindOne(src: string, o: nat, j: nat, name: int, k: nat)
    requires Balanced(src) && o < |src| && src[o] == '[' && j < |src|
    requires (name == 2 * o && j == o && k == 0) || (name == 2 * o + 1 && j == Close(src, o) && src[j] == ']' && Open(src, j) == o && k == 1)
    ensures Find(Compile(src), name) == At(src, j) + k
  {
    hide Code, Token, Find, Depth, Balanced, Open, Close, Reads;
    var t, all := Token(src, j), Code(src, 0);
    LabelSpot(src, o, j, name, k);
    ReadsBracket(src, 0, j);
    CodeSuffix(src, 0, j);
    CodeUnfold(src, j);
    LabelNotBefore(src, 0, j, o, name);
    var a := |all| - |Code(src, j)|;
    assert all[a..][..|t|] == t;
    FindInside(PROLOG, all, EPILOG, a, t, k, name);
  }

  lemma LabelSpot(src: string, o: nat, j: nat, name: int, k: nat)
    requires o < |src| && src[o] == '[' && j < |src|
    requires (name == 2 * o && j == o && k == 0) || (name == 2 * o + 1 && src[j] == ']' && Open(src, j) == o && k == 1)
    ensures var t := Token(src, j); k < |t| && t[k] == Lab(name) && (k == 1 ==> t[0].Jmp?)
  {}

  lemma FindInside(p: seq<Instr>, all: seq<Instr>, e: seq<Instr>, a: nat, t: seq<Instr>, k: nat, name: int)
    requires a + |t| <= |all| && all[a..a + |t|] == t && k < |t| && t[k] == Lab(name)
    requires forall i :: 0 <= i < |p| ==> p[i] != Lab(name)
    requires forall i :: 0 <= i < a ==> all[i] != Lab(name)
    requires forall i :: 0 <= i < k ==> t[i] != Lab(name)
    ensures Find(p + all + e, name) == |p| + a + k
  {
    hide Find;
    var full := p + all + e;
    var slice := all[a..a + |t|];
    assert all[a + k] == slice[k];
    forall q | 0 <= q < |p| + a + k ensures full[q] != Lab(name) {
      if q >= |p| + a { assert full[q] == all[q - |p|] == slice[q - |p| - a] == t[q - |p| - a]; }
    }
    assert full[|p| + a + k] == t[k];
    FindFirst(full, name, |p| + a + k);
  }

  /** The generated code, between tokens, holds the state of the source. */
  ghost predicate Synced(b: Bf, s: State, env: Env, frame: seq<u32>) {
    && s.status.Running? && s.regs.ebp == b.ptr && s.mem == b.mem && s.input == b.input && s.output == b.output
    && s.regs.esi == env.putchar && s.regs.edi == env.getchar && s.stack == frame
  }

  ghost predicate InStep(src: string, b: Bf, s: State, env: Env, frame: seq<u32>) {
    && Synced(b, s, env, frame) && b.pc <= |src| && Reads(src, 0, b.pc) && s.pc == At(src, b.pc)
  }

  predicate GoodEnv(env: Env) {
    env.putchar != env.getchar && env.putchar != env.printf && env.getchar != env.printf
  }

  /** n repetitions of a folded character. */
  function Repeat(c: char, b: Bf, n: nat): Bf {
    if c == '+' || c == '-' then
      if n == 0 then b else b.(mem := Store8(b.mem, b.ptr, (Load8(b.mem, b.ptr) + Sign(c, n)) % 0x100))
    else b.(ptr := Wrap(b.ptr + Sign(c, n)))
  }

  lemma WrapByte(x: int, k: int, n: int)
    ensures ((x + k) % 0x100 + n) % 0x100 == (x + k + n) % 0x100
  {}

  lemma WrapPtr(x: int, k: int, n: int)
    ensures Wrap(Wrap(x + k) + n) == Wrap(x + k + n)
  {}

  lemma StoreTwice(m: Memory, a: u32, y: u8, z: u8)
    ensures Store8(Store8(m, a, y), a, z) == Store8(m, a, z) && Load8(Store8(m, a, y), a) == y
  {}

  /** Reading on to the end of a run, character by character, repeats the character as often as it occurs. */
  lemma {:induction false} RunMeans(src: string, i: nat, e: nat, c: char, b: Bf)
    requires IsFolded(c) && i <= e <= |src| && b.pc == i && forall k :: i <= k < e ==> src[k] == c || IsSpace(src[k])
    ensures BfSteps(src, b, e - i) == Repeat(c, b, Count(src, i, e, c)).(pc := e)
    decreases e - i
  {
    hide Repeat, BfStep;
    if i == e { RepeatZero(c, b); }
    else {
      var b1 := BfStep(src, b);
      RunStep(src, b, c);
      RunMeans(src, i + 1, e, c, b1);
      if src[i] == c { RepeatFrom(c, b, b1, Count(src, i + 1, e, c)); }
      else { RepeatPc(c, b, Count(src, i + 1, e, c), i + 1); }
    }
  }

  lemma RunStep(src: string, b: Bf, c: char)
    requires b.pc < |src| && IsFolded(c) && (src[b.pc] == c || IsSpace(src[b.pc]))
    ensures BfStep(src, b) == (if src[b.pc] == c then Repeat(c, b, 1) else b).(pc := b.pc + 1)
  {
    hide Load8, Store8, Wrap;
  }

  lemma RepeatPc(c: char, b: Bf, n: nat, i: nat)
    ensures Repeat(c, b.(pc := i), n) == Repeat(c, b, n).(pc := i)
  {}

  lemma {:induction false} RunInside(src: string, i: nat, e: nat, c: char, b: Bf, m: nat)
    requires IsFolded(c) && i <= e <= |src| && b.pc == i && m < e - i && forall k :: i <= k < e ==> src[k] == c || IsSpace(src[k])
    ensures BfSteps(src, b, m).pc < |src|
    decreases m
  {
    if m > 0 {
      RunStep(src, b, c);
      RepeatPcSame(c, b, 1);
      hide BfStep, Repeat;
      RunInside(src, i + 1, e, c, BfStep(src, b), m - 1);
    }
  }

  lemma RepeatPcSame(c: char, b: Bf, n: nat)
    ensures Repeat(c, b, n).pc == b.pc
  {}

  lemma RepeatZero(c: char, b: Bf)
    requires IsFolded(c)
    ensures Repeat(c, b, 0) == b
  {}

  lemma RepeatFrom(c: char, b: Bf, b1: Bf, n: nat)
    requires IsFolded(c) && b1 == Repeat(c, b, 1).(pc := b1.pc)
    ensures Repeat(c, b1, n).(pc := b.pc) == Repeat(c, b, n + 1)
  {
    assert Sign(c, 1) + Sign(c, n) == Sign(c, n + 1);
    if c == '+' || c == '-' {
      var x := Load8(b.mem, b.ptr);
      WrapByte(x, Sign(c, 1), Sign(c, n));
      StoreTwice(b.mem, b.ptr, (x + Sign(c, 1)) % 0x100, (x + Sign(c, n + 1)) % 0x100);
      hide Store8, Load8, Sign;
    } else {
      WrapPtr(b.ptr, Sign(c, 1), Sign(c, n));
      hide Wrap, Sign;
    }
  }

  /** inc, dec and add on the cell or the pointer carry out the whole run. */
  lemma FoldedRuns(c: char, n: nat, b: Bf, s: State, env: Env, frame: seq<u32>)
    requires IsFolded(c) && n > 0 && Synced(b, s, env, frame)
    ensures var k := Sign(c, n);
      var i := if c == '+' || c == '-' then Add8(EBP, k) else Add(R(EBP), I(Wrap(k)));
      Straight(i) && Synced(Repeat(c, b, n), Fold(env, [i], s), env, frame)
  {
    hide Load32, Store32, External, Fold;
    var k := Sign(c, n);
    WrapAdd(b.ptr, k);
    if c == '+' || c == '-' { OneRuns(env, Add8(EBP, k), s); } else { OneRuns(env, Add(R(EBP), I(Wrap(k))), s); }
  }

  lemma WrapAdd(x: int, n: int)
    ensures Wrap(x + Wrap(n)) == Wrap(x + n)
  {}

  /** movzx, push, call putchar, pop: the cell is printed, and what the call clobbers does not matter. */
  lemma PrintRuns(b: Bf, s: State, env: Env, frame: seq<u32>)
    requires Synced(b, s, env, frame) && GoodEnv(env)
    ensures Synced(b.(output := b.output + [Putchar(Load8(b.mem, b.ptr))]),
                   Fold(env, [Movzx8(EAX, EBP), Push(R(EAX)), Call(R(ESI)), Pop(EAX)], s), env, frame)
  {
    hide Load32, Store32, Exec, Fold, External;
    var x := Load8(b.mem, b.ptr);
    var c3 := [Pop(EAX)];
    var c2 := [Call(R(ESI))] + c3;
    var c1 := [Push(R(EAX))] + c2;
    assert [Movzx8(EAX, EBP), Push(R(EAX)), Call(R(ESI)), Pop(EAX)] == [Movzx8(EAX, EBP)] + c1;
    var s2 := LoadPush(env, s, c2);
    var s3 := PutcharRuns(env, s2, c3);
    assert s3.stack[1..] == frame;
    OneRuns(env, Pop(EAX), s3);
    PopIs(env, s3);
  }

  lemma LoadPush(env: Env, s: State, rest: seq<Instr>) returns (t: State)
    requires s.status.Running?
    ensures var x := Load8(s.mem, s.regs.ebp); t == s.(pc := s.pc + 2, regs := s.regs.(eax := x), stack := [x] + s.stack)
    ensures Fold(env, [Movzx8(EAX, EBP)] + ([Push(R(EAX))] + rest), s) == Fold(env, rest, t)
  {
    hide Load32, Store32, External;
    var x := Load8(s.mem, s.regs.ebp);
    var s1 := s.(pc := s.pc + 1, regs := s.regs.(eax := x));
    var c1 := [Push(R(EAX))] + rest;
    FoldStep(env, [Movzx8(EAX, EBP)] + c1, c1, s);
    t := s1.(pc := s.pc + 2, stack := [x] + s.stack);
    FoldStep(env, c1, rest, s1);
  }

  lemma PutcharRuns(env: Env, s: State, rest: seq<Instr>) returns (t: State)
    requires s.status.Running? && s.stack != [] && GoodEnv(env) && s.regs.esi == env.putchar && s.stack[0] < 0x100
    ensures t == s.(pc := s.pc + 1, regs := s.regs.(eax := t.regs.eax, ecx := t.regs.ecx, edx := t.regs.edx), zf := t.zf, cf := t.cf,
                    calls := s.calls + 1, stack := t.stack, output := s.output + [Putchar(s.stack[0])])
    ensures |t.stack| == |s.stack| && t.stack[1..] == s.stack[1..]
    ensures Fold(env, [Call(R(ESI))] + rest, s) == Fold(env, rest, t)
  {
    t := Exec(env, Call(R(ESI)), s).(pc := s.pc + 1);
    CallPutchar(env, s);
    hide Exec, Fold;
    FoldStep(env, [Call(R(ESI))] + rest, rest, s);
  }

  lemma CallPutchar(env: Env, s: State)
    requires s.status.Running? && s.stack != [] && GoodEnv(env) && s.regs.esi == env.putchar && s.stack[0] < 0x100
    ensures var t := Exec(env, Call(R(ESI)), s);
      && t == s.(regs := s.regs.(eax := t.regs.eax, ecx := t.regs.ecx, edx := t.regs.edx), zf := t.zf, cf := t.cf,
                 calls := s.calls + 1, stack := t.stack, output := s.output + [Putchar(s.stack[0])])
      && |t.stack| == |s.stack| && t.stack[1..] == s.stack[1..]
  {
    hide Load32, Store32;
  }

  lemma PopIs(env: Env, s: State)
    requires s.stack != []
    ensures Exec(env, Pop(EAX), s) == s.(regs := s.regs.(eax := s.stack[0]), stack := s.stack[1..])
  {
    hide Load32, External;
  }

  /** call getchar, store al. */
  lemma InputRuns(b: Bf, s: State, env: Env, frame: seq<u32>)
    requires Synced(b, s, env, frame) && GoodEnv(env)
    ensures Synced(b.(mem := Store8(b.mem, b.ptr, NextInput(b.input)), input := if b.input == [] then [] else b.input[1..]),
                   Fold(env, [Call(R(EDI)), Mov8(EBP)], s), env, frame)
  {
    hide Load32, Store32, External;
    var s1 := GetcharRuns(env, s, [Mov8(EBP)]);
    OneRuns(env, Mov8(EBP), s1);
  }

  lemma ClobberNone(s: State, j: Junk)
    ensures Clobber(s, j, 0) == s.(regs := s.regs.(eax := j.eax, ecx := j.ecx, edx := j.edx), zf := j.zf, cf := j.cf, calls := s.calls + 1)
  {
    assert [] + s.stack[0..] == s.stack;
  }

  lemma GetcharRuns(env: Env, s: State, rest: seq<Instr>) returns (t: State)
    requires s.status.Running? && GoodEnv(env) && s.regs.edi == env.getchar
    ensures t == s.(pc := s.pc + 1, regs := s.regs.(eax := t.regs.eax, ecx := t.regs.ecx, edx := t.regs.edx), zf := t.zf, cf := t.cf,
                    calls := s.calls + 1, input := if s.input == [] then [] else s.input[1..])
    ensures t.regs.eax % 0x100 == NextInput(s.input)
    ensures Fold(env, [Call(R(EDI))] + rest, s) == Fold(env, rest, t)
  {
    hide Load32, Store32, Clobber, Fold;
    t := Exec(env, Call(R(EDI)), s).(pc := s.pc + 1);
    ClobberNone(s, env.junk(s.calls));
    FoldStep(env, [Call(R(EDI))] + rest, rest, s);
  }

  /** The test of a loop: zf says whether the cell is 0. */
  lemma TestRuns(b: Bf, s: State, env: Env, frame: seq<u32>, name: int)
    requires Synced(b, s, env, frame)
    ensures var t := Fold(env, [Lab(name), Movzx8(EAX, EBP), Test(R(EAX), R(EAX))], s);
      Synced(b, t, env, frame) && t.zf == (Load8(b.mem, b.ptr) == 0) && t.pc == s.pc + 3
  {
    hide Exec, Fold;
    var c2 := [Test(R(EAX), R(EAX))];
    var c1 := [Movzx8(EAX, EBP)] + c2;
    assert [Lab(name), Movzx8(EAX, EBP), Test(R(EAX), R(EAX))] == [Lab(name)] + c1;
    FoldStep(env, [Lab(name)] + c1, c1, s);
    var s1 := s.(pc := s.pc + 1);
    FoldStep(env, c1, c2, s1);
    var s2 := s1.(pc := s.pc + 2, regs := s.regs.(eax := Load8(b.mem, b.ptr)));
    TestEffects(env, s, s1, s2, name);
    OneRuns(env, c2[0], s2);
  }

  lemma TestEffects(env: Env, s: State, s1: State, s2: State, name: int)
    requires s1.mem == s.mem && s1.regs == s.regs
    ensures Exec(env, Lab(name), s) == s
    ensures Exec(env, Movzx8(EAX, EBP), s1) == s1.(regs := s1.regs.(eax := Load8(s.mem, s.regs.ebp)))
    ensures Exec(env, Test(R(EAX), R(EAX)), s2) == s2.(zf := s2.regs.eax == 0, cf := false)
  {
    hide Load32, Store32, External;
  }

  lemma SyncedPc(b: Bf, s: State, env: Env, frame: seq<u32>, i: nat, p: nat)
    requires Synced(b, s, env, frame)
    ensures Synced(b.(pc := i), s.(pc := p), env, frame)
  {}

  /** m characters of the source are j instructions of the program. */
  ghost predicate Follows(src: string, b: Bf, s: State, env: Env, frame: seq<u32>, m: nat, j: nat) {
    var b', t := BfSteps(src, b, m), Steps(Compile(src), env, s, j);
    && m >= 1 && InStep(src, b', t, env, frame) && (j >= 1 || b'.pc > b.pc)
    && forall n :: 0 <= n < m ==> BfSteps(src, b, n).pc < |src|
  }

  lemma OneStep(src: string, b: Bf)
    ensures BfSteps(src, b, 1) == BfStep(src, b) && BfSteps(src, b, 0) == b
  {
    hide BfStep;
  }

  /** A token whose code has no jump. */
  lemma StraightToken(src: string, b: Bf, s: State, env: Env, frame: seq<u32>, m: nat)
    requires InStep(src, b, s, env, frame) && b.pc < |src| && m >= 1
    requires forall n :: 0 <= n < m ==> BfSteps(src, b, n).pc < |src|
    requires var t := Token(src, b.pc); (forall i :: i in t ==> Straight(i)) && Synced(BfSteps(src, b, m), Fold(env, t, s), env, frame)
    requires BfSteps(src, b, m).pc == Next(src, b.pc)
    ensures Follows(src, b, s, env, frame, m, |Token(src, b.pc)|)
  {
    hide Token, Compile, BfSteps, Fold, Steps, At, Reads;
    var t := Token(src, b.pc);
    TokenAt(src, b.pc);
    ReadsNext(src, 0, b.pc);
    FoldSteps(Compile(src), env, t, s);
    FoldPc(env, t, s);
  }

  lemma FoldedToken(src: string, b: Bf, s: State, env: Env, frame: seq<u32>) returns (m: nat, j: nat)
    requires InStep(src, b, s, env, frame) && b.pc < |src| && IsFolded(src[b.pc])
    ensures Follows(src, b, s, env, frame, m, j)
  {
    hide Follows, Synced, BfSteps, At, Reads, Repeat, Fold, Compile;
    var i, c := b.pc, src[b.pc];
    var e := Next(src, i);
    m := e - i;
    RunMeans(src, i, e, c, b);
    forall k | 0 <= k < m ensures BfSteps(src, b, k).pc < |src| { RunInside(src, i, e, c, b, k); }
    var n := Count(src, i, e, c);
    assert n == 1 + Count(src, i + 1, e, c);
    FoldedRuns(c, n, b, s, env, frame);
    j := |Token(src, i)|;
    var k := Sign(c, n);
    assert Token(src, i) == [if c == '+' || c == '-' then Add8(EBP, k) else Add(R(EBP), I(Wrap(k)))];
    SyncedPc(Repeat(c, b, n), Fold(env, Token(src, i), s), env, frame, e, Fold(env, Token(src, i), s).pc);
    StraightToken(src, b, s, env, frame, m);
  }

  lemma PlainToken(src: string, b: Bf, s: State, env: Env, frame: seq<u32>)
    requires InStep(src, b, s, env, frame) && b.pc < |src| && !IsFolded(src[b.pc]) && src[b.pc] != '[' && src[b.pc] != ']' && GoodEnv(env)
    ensures Follows(src, b, s, env, frame, 1, |Token(src, b.pc)|)
  {
    hide Follows, BfSteps, At, Reads, Fold, Compile, Load8, Store8, Load32, Store32, External, Exec;
    OneStep(src, b);
    var c := src[b.pc];
    if c == '.' {
      PrintRuns(b, s, env, frame);
      var b' := b.(output := b.output + [Putchar(Load8(b.mem, b.ptr))]);
      SyncedPc(b', Fold(env, Token(src, b.pc), s), env, frame, b.pc + 1, Fold(env, Token(src, b.pc), s).pc);
    } else if c == ',' {
      InputRuns(b, s, env, frame);
      SyncedPc(b.(mem := Store8(b.mem, b.ptr, NextInput(b.input)), input := if b.input == [] then [] else b.input[1..]),
               Fold(env, Token(src, b.pc), s), env, frame, b.pc + 1, Fold(env, Token(src, b.pc), s).pc);
    } else {
      FoldNone(env, s);
      SyncedPc(b, s, env, frame, b.pc + 1, s.pc);
    }
    StraightToken(src, b, s, env, frame, 1);
  }

  lemma HeadSlice(code: seq<Instr>, a: nat, head: seq<Instr>, last: Instr)
    requires a + |head| + 1 <= |code| && code[a..a + |head| + 1] == head + [last]
    ensures code[a..a + |head|] == head && code[a + |head|] == last
  {
    var t := code[a..a + |head| + 1];
    assert t[..|head|] == head && t[|head|] == last;
  }

  function LoopHead(o: nat): seq<Instr> {
    [Lab(2 * o), Movzx8(EAX, EBP), Test(R(EAX), R(EAX))]
  }

  lemma OpenShape(src: string, o: nat)
    requires o < |src| && src[o] == '['
    ensures Token(src, o) == LoopHead(o) + [Jz(2 * o + 1)] && Next(src, o) == o + 1
    ensures forall i :: i in LoopHead(o) ==> Straight(i)
  {}

  /** The code of an opening bracket up to its conditional jump. */
  lemma TestThenJump(src: string, b: Bf, s: State, env: Env, frame: seq<u32>) returns (u: State)
    requires InStep(src, b, s, env, frame) && b.pc < |src| && src[b.pc] == '['
    ensures Synced(b, u, env, frame) && u.zf == (Load8(b.mem, b.ptr) == 0) && u.pc == s.pc + 3
    ensures Steps(Compile(src), env, s, 3) == u && u.pc < |Compile(src)| && Compile(src)[u.pc] == Jz(2 * b.pc + 1)
  {
    var o, code := b.pc, Compile(src);
    hide Token, Fold, Steps, At, Reads, Compile, Synced, Code;
    TokenAt(src, o);
    OpenShape(src, o);
    var head := LoopHead(o);
    HeadSlice(code, s.pc, head, Jz(2 * o + 1));
    FoldSteps(code, env, head, s);
    TestRuns(b, s, env, frame, 2 * o);
    u := Fold(env, head, s);
  }

  /** The opening bracket tests the cell and jumps behind the loop when it is 0. */
  lemma OpenToken(src: string, b: Bf, s: State, env: Env, frame: seq<u32>) returns (j: nat)
    requires Balanced(src) && InStep(src, b, s, env, frame) && b.pc < |src| && src[b.pc] == '['
    ensures Follows(src, b, s, env, frame, 1, j)
  {
    hide BfSteps, At, Reads, Compile, Load8, Find, Steps, Close, Balanced, Token, Step, Depth, Code, Next;
    var o, code := b.pc, Compile(src);
    OneStep(src, b);
    OpenShape(src, o);
    var u := TestThenJump(src, b, s, env, frame);
    StepsAdd(code, env, s, 3, 1);
    StepsOne(code, env, u);
    if u.zf {
      CloseOpens(src, o);
      var c := Close(src, o);
      SkipLoop(src, o, u, env);
      StepsAdd(code, env, s, 3, 2);
      ReadsBracket(src, 0, c);
      ReadsNext(src, 0, c);
      SyncedPc(b, u, env, frame, c + 1, At(src, c + 1));
      j := 5;
    } else {
      JzFalls(code, env, u);
      TokenAt(src, o);
      ReadsNext(src, 0, o);
      SyncedPc(b, u, env, frame, o + 1, u.pc + 1);
      j := 4;
    }
  }

  lemma JzFalls(code: seq<Instr>, env: Env, s: State)
    requires s.status.Running? && s.pc < |code| && code[s.pc].Jz? && !s.zf
    ensures Step(code, env, s) == s.(pc := s.pc + 1)
  {}

  /** Two steps from the conditional jump to behind the closing bracket. */
  lemma SkipLoop(src: string, o: nat, s: State, env: Env)
    requires Balanced(src) && o < |src| && src[o] == '['
    requires s.status.Running? && s.zf && s.pc < |Compile(src)| && Compile(src)[s.pc] == Jz(2 * o + 1)
    ensures Close(src, o) < |src| && Next(src, Close(src, o)) == Close(src, o) + 1
    ensures At(src, Close(src, o) + 1) >= 0 && Steps(Compile(src), env, s, 2) == s.(pc := At(src, Close(src, o) + 1))
  {
    hide At, Reads, Compile, Find, Steps, Close, Balanced, Token, Open, Depth, Code, Next;
    var code, c := Compile(src), Close(src, o);
    CloseOpens(src, o);
    CloseShape(src, c);
    FindLabels(src, o);
    ReadsBracket(src, 0, c);
    TokenAt(src, c);
    var w := s.(pc := At(src, c) + 1);
    HeadSlice(code, At(src, c), [Jmp(2 * o)], Lab(2 * o + 1));
    hide Step;
    JzGoes(code, env, s, 2 * o + 1);
    LabStep(code, env, w);
    StepsAdd(code, env, s, 1, 1);
    StepsOne(code, env, s); StepsOne(code, env, w);
  }

  lemma JzGoes(code: seq<Instr>, env: Env, s: State, name: int)
    requires s.status.Running? && s.zf && s.pc < |code| && code[s.pc] == Jz(name) && Find(code, name) < |code|
    ensures Step(code, env, s) == s.(pc := Find(code, name))
  {
    hide Find;
  }

  lemma CloseShape(src: string, c: nat)
    requires c < |src| && src[c] == ']'
    ensures Token(src, c) == [Jmp(2 * Open(src, c))] + [Lab(2 * Open(src, c) + 1)] && Next(src, c) == c + 1
  {}

  lemma StepsOne(code: seq<Instr>, env: Env, s: State)
    ensures Steps(code, env, s, 1) == Step(code, env, s)
  {
    hide Step;
    assert Steps(code, env, Step(code, env, s), 0) == Step(code, env, s);
  }

  lemma LabStep(code: seq<Instr>, env: Env, s: State)
    requires s.status.Running? && s.pc < |code| && code[s.pc].Lab?
    ensures Step(code, env, s) == s.(pc := s.pc + 1)
  {
    hide Load32, Store32, External;
  }

  /** The closing bracket jumps back to the test. */
  lemma CloseToken(src: string, b: Bf, s: State, env: Env, frame: seq<u32>)
    requires Balanced(src) && InStep(src, b, s, env, frame) && b.pc < |src| && src[b.pc] == ']'
    ensures Follows(src, b, s, env, frame, 1, 1)
  {
    hide BfSteps, At, Reads, Compile, Find, Steps, Open, Close, Balanced, Token, Depth, Code, Next;
    var c, code := b.pc, Compile(src);
    OpenCloses(src, c);
    CloseShape(src, c);
    OneStep(src, b);
    TokenAt(src, c);
    var o := Open(src, c);
    FindLabels(src, o);
    ReadsBracket(src, 0, o);
    TokenAt(src, o);
    HeadSlice(code, At(src, c), [Jmp(2 * o)], Lab(2 * o + 1));
    JmpGoes(code, env, s, At(src, c), 2 * o);
    hide Step;
    StepsOne(code, env, s);
    SyncedPc(b, s, env, frame, o, At(src, o));
  }

  lemma JmpGoes(code: seq<Instr>, env: Env, s: State, a: nat, name: int)
    requires s.status.Running? && s.pc == a && a + 1 <= |code| && code[a..a + 1] == [Jmp(name)] && Find(code, name) < |code|
    ensures Step(code, env, s) == s.(pc := Find(code, name))
  {
    hide Find;
    assert code[a] == code[a..a + 1][0];
  }

  lemma TokenRuns(src: string, b: Bf, s: State, env: Env, frame: seq<u32>) returns (m: nat, j: nat)
    requires Balanced(src) && InStep(src, b, s, env, frame) && b.pc < |src| && GoodEnv(env)
    ensures Follows(src, b, s, env, frame, m, j)
  {
    hide Follows, Balanced, InStep, Token;
    var c := src[b.pc];
    if IsFolded(c) { m, j := FoldedToken(src, b, s, env, frame); }
    else if c == '[' { m := 1; j := OpenToken(src, b, s, env, frame); }
    else if c == ']' { m, j := 1, 1; CloseToken(src, b, s, env, frame); }
    else { m, j := 1, |Token(src, b.pc)|; PlainToken(src, b, s, env, frame); }
  }

  function Start(s: State): Bf
    requires |s.stack| >= 4
  {
    Bf(0, s.stack[3], s.mem, s.input, s.output)
  }

  /** Called as code(putchar, getchar, stack): three arguments behind the return address. */
  predicate Entry(s: State, env: Env) {
    && s.status.Running? && s.pc == 0 && |s.stack| >= 4
    && GoodEnv(env) && s.stack[1] == env.putchar && s.stack[2] == env.getchar
  }

  function Frame(s: State): seq<u32> {
    [s.regs.edi, s.regs.esi, s.regs.ebp] + s.stack
  }

  lemma ArgRuns(env: Env, s: State, r: Reg, k: nat, rest: seq<Instr>) returns (t: State)
    requires s.status.Running? && k < |s.stack|
    ensures t == s.(pc := s.pc + 1, regs := s.regs.Set(r, s.stack[k]))
    ensures Fold(env, [Mov(R(r), Arg(k))] + rest, s) == Fold(env, rest, t)
  {
    hide Load32;
    t := s.(pc := s.pc + 1, regs := s.regs.Set(r, s.stack[k]));
    FoldStep(env, [Mov(R(r), Arg(k))] + rest, rest, s);
  }

  lemma PrologRuns(s: State, env: Env)
    requires Entry(s, env)
    ensures Fold(env, PROLOG, s)
         == s.(pc := 6, stack := Frame(s), regs := s.regs.(esi := s.stack[1], edi := s.stack[2], ebp := s.stack[3]))
  {
    hide Fold;
    var c5 := [Mov(R(EBP), Arg(6))];
    var c4 := [Mov(R(EDI), Arg(5))] + c5;
    var c3 := [Mov(R(ESI), Arg(4))] + c4;
    var c2 := [Push(R(EDI))] + c3;
    var c1 := [Push(R(ESI))] + c2;
    assert PROLOG == [Push(R(EBP))] + c1;
    var s1 := PushRuns(env, s, R(EBP), c1);
    var s2 := PushRuns(env, s1, R(ESI), c2);
    var s3 := PushRuns(env, s2, R(EDI), c3);
    assert s3.stack == Frame(s);
    var s4 := ArgRuns(env, s3, ESI, 4, c4);
    var s5 := ArgRuns(env, s4, EDI, 5, c5);
    assert c5 + [] == c5;
    var s6 := ArgRuns(env, s5, EBP, 6, []);
    FoldNone(env, s6);
  }

  lemma StartRuns(src: string, s: State, env: Env)
    requires Entry(s, env)
    ensures InStep(src, Start(s), Steps(Compile(src), env, s, 6), env, Frame(s))
  {
    var code := Compile(src);
    assert code[0..6] == PROLOG;
    hide Code, Fold, Steps;
    FoldSteps(code, env, PROLOG, s);
    PrologRuns(s, env);
  }

  /** What the compiled function leaves when the source has ended in state b. */
  ghost predicate Finished(b: Bf, s: State, t: State) {
    && t.status.Halted? && t.output == b.output && t.input == b.input && t.mem == b.mem
    && t.regs.ebp == s.regs.ebp && t.regs.esi == s.regs.esi && t.regs.edi == s.regs.edi && t.stack == s.stack
  }

  lemma EndRuns(src: string, b: Bf, s: State, env: Env, s0: State)
    requires InStep(src, b, s, env, Frame(s0)) && b.pc == |src|
    ensures Finished(b, s0, Steps(Compile(src), env, s, 4))
    ensures forall i :: 0 <= i < 4 ==> Steps(Compile(src), env, s, i).status.Running?
  {
    hide Code, Fold, Steps, Compile, Exec, InStep, Straight;
    var code := Compile(src);
    EndsWithEpilog(src, b, s, env, s0);
    FoldSteps(code, env, EPILOG, s);
    EpilogRuns(env, s, s0);
    forall i | 0 <= i < 4 ensures Steps(code, env, s, i).status.Running? {
      EpilogSlices(code, s.pc, i);
      FoldSteps(code, env, EPILOG[..i], s);
      EpilogGoesOn(env, s, i);
    }
  }

  lemma EndsWithEpilog(src: string, b: Bf, s: State, env: Env, s0: State)
    requires InStep(src, b, s, env, Frame(s0)) && b.pc == |src|
    ensures s.pc + 4 <= |Compile(src)| && Compile(src)[s.pc..s.pc + 4] == EPILOG && |EPILOG| == 4
    ensures s.status.Running? && s.stack == Frame(s0) && s.output == b.output && s.input == b.input && s.mem == b.mem
    ensures forall i :: i in EPILOG ==> Straight(i)
  {
    CodeAtEnd(src);
    hide Code, Reads;
    assert Compile(src)[At(src, |src|)..At(src, |src|) + 4] == EPILOG;
  }

  lemma CodeAtEnd(src: string)
    ensures Code(src, |src|) == []
  {}

  lemma EpilogRuns(env: Env, s: State, s0: State)
    requires s.status.Running? && s.stack == Frame(s0)
    ensures var t := Fold(env, EPILOG, s);
      && t.status.Halted? && t.output == s.output && t.input == s.input && t.mem == s.mem
      && t.regs.ebp == s0.regs.ebp && t.regs.esi == s0.regs.esi && t.regs.edi == s0.regs.edi && t.stack == s0.stack
  {
    hide Fold, Exec;
    var c3 := [Ret];
    var c2 := [Pop(EBP)] + c3;
    var c1 := [Pop(ESI)] + c2;
    assert EPILOG == [Pop(EDI)] + c1;
    var s1 := PopRuns(env, s, EDI, c1);
    var s2 := PopRuns(env, s1, ESI, c2);
    var s3 := PopRuns(env, s2, EBP, c3);
    OneRuns(env, Ret, s3);
    RetRuns(env, s3);
    assert s3.stack == s0.stack;
  }

  lemma EpilogSlices(code: seq<Instr>, a: nat, i: nat)
    requires a + 4 <= |code| && code[a..a + 4] == EPILOG && i < 4
    ensures code[a..a + i] == EPILOG[..i]
  {
    assert code[a..a + 4][..i] == code[a..a + i];
  }

  lemma EpilogGoesOn(env: Env, s: State, i: nat)
    requires s.status.Running? && |s.stack| >= 3 && i < 4
    ensures Fold(env, EPILOG[..i], s).status.Running?
  {
    hide Exec, Fold;
    var p := [Pop(EDI), Pop(ESI), Pop(EBP)];
    if i == 0 { FoldNone(env, s); assert EPILOG[..0] == []; }
    else {
      var c1 := EPILOG[1..i];
      assert EPILOG[..i] == [Pop(EDI)] + c1;
      var s1 := PopRuns(env, s, EDI, c1);
      if i == 1 { assert c1 == []; FoldNone(env, s1); }
      else {
        var c2 := EPILOG[2..i];
        assert c1 == [Pop(ESI)] + c2;
        var s2 := PopRuns(env, s1, ESI, c2);
        if i == 2 { assert c2 == []; FoldNone(env, s2); }
        else { assert c2 == [Pop(EBP)] + []; var s3 := PopRuns(env, s2, EBP, []); FoldNone(env, s3); }
      }
    }
  }

  /** From a token on: if the source ends within n characters, the program ends with its outcome. */
  lemma {:induction false} EndsFrom(src: string, b: Bf, s: State, env: Env, s0: State, n: nat) returns (k: nat)
    requires Balanced(src) && GoodEnv(env) && InStep(src, b, s, env, Frame(s0)) && BfSteps(src, b, n).pc >= |src|
    ensures Finished(BfSteps(src, b, n), s0, Steps(Compile(src), env, s, k))
    decreases n
  {
    hide Balanced, GoodEnv, Compile, Steps, Reads, At, Synced;
    if b.pc == |src| {
      EndRuns(src, b, s, env, s0);
      EndedStays(src, b, n);
      k := 4;
    } else {
      var m, j := TokenRuns(src, b, s, env, Frame(s0));
      BfStepsAdd(src, b, m, n - m);
      k := EndsFrom(src, BfSteps(src, b, m), Steps(Compile(src), env, s, j), env, s0, n - m);
      StepsAdd(Compile(src), env, s, j, k);
      k := j + k;
    }
  }

  lemma {:induction false} EndedStays(src: string, b: Bf, n: nat)
    requires b.pc >= |src|
    ensures BfSteps(src, b, n) == b
    decreases n
  {
    if n > 0 { EndedStays(src, BfStep(src, b), n - 1); }
  }

  /** From a token on: if the program stops within k steps, the source has ended. */
  lemma {:induction false} StopsFrom(src: string, b: Bf, s: State, env: Env, s0: State, k: nat) returns (n: nat)
    requires Balanced(src) && GoodEnv(env) && InStep(src, b, s, env, Frame(s0))
    requires !Steps(Compile(src), env, s, k).status.Running?
    ensures BfSteps(src, b, n).pc >= |src|
    decreases k, |src| - b.pc
  {
    hide Balanced, GoodEnv, Compile, Steps, Reads, At;
    if b.pc == |src| {
      n := 0;
    } else {
      var m, j := TokenRuns(src, b, s, env, Frame(s0));
      var b', t := BfSteps(src, b, m), Steps(Compile(src), env, s, j);
      if k < j {
        StepsAdd(Compile(src), env, s, k, j - k);
        StepsHalted(Compile(src), env, Steps(Compile(src), env, s, k), j - k);
        assert false;
      }
      StepsAdd(Compile(src), env, s, j, k - j);
      n := StopsFrom(src, b', t, env, s0, k - j);
      BfStepsAdd(src, b, m, n);
      n := m + n;
    }
  }

  /** Whole runs of a balanced source: the compiled program halts exactly when the source ends, and then with
      the same output, the same input consumed, the same tape, and the caller's registers and stack restored. */
  lemma CompilationPreservesMeaning(src: string, s: State, env: Env)
    requires Balanced(src) && Entry(s, env)
    ensures (exists k: nat :: !Steps(Compile(src), env, s, k).status.Running?)
       <==> (exists n: nat :: BfSteps(src, Start(s), n).pc >= |src|)
    ensures forall k: nat, n: nat ::
      !Steps(Compile(src), env, s, k).status.Running? && BfSteps(src, Start(s), n).pc >= |src| ==>
        Finished(BfSteps(src, Start(s), n), s, Steps(Compile(src), env, s, k))
  {
    hide Balanced, GoodEnv, Compile, Steps, BfSteps, InStep, Finished;
    var code, b := Compile(src), Start(s);
    StartRuns(src, s, env);
    var t := Steps(code, env, s, 6);
    if k: nat :| !Steps(code, env, s, k).status.Running? {
      StepsAdd(code, env, s, k, 6); StepsHalted(code, env, Steps(code, env, s, k), 6); StepsAdd(code, env, s, 6, k);
      var n := StopsFrom(src, b, t, env, s, k);
    }
    forall k: nat, n: nat | !Steps(code, env, s, k).status.Running? && BfSteps(src, b, n).pc >= |src|
      ensures Finished(BfSteps(src, b, n), s, Steps(code, env, s, k))
    {
      var j := EndsFrom(src, b, t, env, s, n);
      StepsAdd(code, env, s, 6, j);
      FinishedHalts(BfSteps(src, b, n), s, Steps(code, env, s, 6 + j));
      HaltsOnce(code, env, s, k, 6 + j);
    }
    if n: nat :| BfSteps(src, b, n).pc >= |src| {
      var j := EndsFrom(src, b, t, env, s, n);
      StepsAdd(code, env, s, 6, j);
      FinishedHalts(BfSteps(src, b, n), s, Steps(code, env, s, 6 + j));
    }
  }

  lemma FinishedHalts(b: Bf, s: State, t: State)
    requires Finished(b, s, t)
    ensures t.status.Halted?
  {}

  /** The part of std::istream the compiler uses. */
  class Stream {
    const text: string
    var pos: nat
    var fail: bool

    constructor (text: string)
      ensures this.text == text && pos == 0 && !fail
    {
      this.text, pos, fail := text, 0, false;
    }

    /** is >> c: skips white space; at the end of the text it fails, and keeps failing. */
    method Get() returns (ok: bool, c: char)
      requires pos <= |text|
      modifies this
      ensures old(pos) <= pos <= |text| && ok == !fail
      ensures old(fail) ==> fail
      ensures ok ==> pos > old(pos) && c == text[pos - 1] && !IsSpace(c) && forall k :: old(pos) <= k < pos - 1 ==> IsSpace(text[k])
      ensures !ok && !old(fail) ==> pos == |text| && forall k :: old(pos) <= k < |text| ==> IsSpace(text[k])
    {
      c := ' ';
      if fail { return false, c; }
      while pos < |text| && IsSpace(text[pos])
        invariant old(pos) <= pos <= |text| && !fail
        invariant forall k :: old(pos) <= k < pos ==> IsSpace(text[k])
      {
        pos := pos + 1;
      }
      if pos == |text| { fail := true; return false, c; }
      c := text[pos];
      pos := pos + 1;
      return true, c;
    }

    /** is.unget(): no effect on a stream that has failed. */
    method Unget()
      requires 0 < pos || fail
      modifies this`pos
      ensures pos == if fail then old(pos) else old(pos) - 1
    {
      if !fail { pos := pos - 1; }
    }
  }

  lemma {:induction false} RunEndIs(src: string, i: nat, e: nat, c: char)
    requires i <= e <= |src| && (forall k :: i <= k < e ==> src[k] == c || IsSpace(src[k]))
    requires e < |src| ==> src[e] != c && !IsSpace(src[e])
    ensures RunEnd(src, i, c) == e
    decreases e - i
  {
    if i < e { RunEndIs(src, i + 1, e, c); }
  }

  lemma {:induction false} CountTo(src: string, i: nat, e: nat, f: nat, c: char)
    requires i <= e <= f <= |src|
    ensures Count(src, i, f, c) == Count(src, i, e, c) + Count(src, e, f, c)
    decreases e - i
  {
    if i < e { CountTo(src, i + 1, e, f, c); }
  }

  lemma {:induction false} CountSpaces(src: string, i: nat, e: nat, c: char)
    requires i <= e <= |src| && !IsSpace(c) && forall k :: i <= k < e ==> IsSpace(src[k])
    ensures Count(src, i, e, c) == 0
    decreases e - i
  {
    if i < e { CountSpaces(src, i + 1, e, c); }
  }

  lemma CountNone(src: string, i: nat, c: char)
    requires i <= |src|
    ensures Count(src, i, i, c) == 0
  {}

  lemma CountOne(src: string, i: nat, c: char)
    requires i < |src| && src[i] == c
    ensures Count(src, i, i + 1, c) == 1
  {}

  /** getContinuousChar: counts the run of c that started at i and leaves the stream where it ends. */
  method GetContinuousChar(stream: Stream, c: char, ghost i: nat) returns (count: nat)
    requires i < |stream.text| && stream.pos == i + 1 && !stream.fail && stream.text[i] == c && !IsSpace(c)
    modifies stream
    ensures var e := RunEnd(stream.text, i + 1, c);
      count == 1 + Count(stream.text, i + 1, e, c) && stream.pos == e && (stream.fail <==> e == |stream.text|)
  {
    hide Count, RunEnd;
    ghost var src := stream.text;
    count := 1;
    CountNone(src, i + 1, c);
    var ok, p := stream.Get();
    ghost var from := i + 1;
    while ok && p == c
      invariant i < from <= stream.pos <= |src| && ok == !stream.fail
      invariant forall k :: i < k < from ==> src[k] == c || IsSpace(src[k])
      invariant count == 1 + Count(src, i + 1, from, c)
      invariant ok ==> from < stream.pos && p == src[stream.pos - 1] && !IsSpace(p) && forall k :: from <= k < stream.pos - 1 ==> IsSpace(src[k])
      invariant !ok ==> stream.pos == |src| && forall k :: from <= k < |src| ==> IsSpace(src[k])
      decreases |src| - from
    {
      ghost var at := stream.pos - 1;
      CountSpaces(src, from, at, c);
      CountOne(src, at, c);
      CountTo(src, from, at, at + 1, c);
      CountTo(src, i + 1, from, at + 1, c);
      count := count + 1;
      from := stream.pos;
      ok, p := stream.Get();
    }
    ghost var e := if ok then stream.pos - 1 else |src|;
    CountSpaces(src, from, e, c);
    CountTo(src, i + 1, from, e, c);
    RunEndIs(src, i + 1, e, c);
    stream.Unget();
  }

  lemma {:induction false} NoBrackets(src: string, i: nat, e: nat, l: int)
    requires i <= e <= |src| && forall k :: i <= k < e ==> src[k] != '[' && src[k] != ']'
    ensures Depth(src, e) == Depth(src, i)
    ensures l < Depth(src, i) ==> Back(src, e, l) == Back(src, i, l)
  {
    if i < e { NoBrackets(src, i, e - 1, l); }
  }

  lemma SpaceToken(src: string, i: nat)
    requires i < |src| && IsSpace(src[i])
    ensures Token(src, i) == [] && Next(src, i) == i + 1
  {}

  lemma {:induction false} CodeSpaces(src: string, i: nat, e: nat)
    requires i <= e <= |src| && forall k :: i <= k < e ==> IsSpace(src[k])
    ensures Code(src, i) == Code(src, e)
    decreases e - i
  {
    hide Token, Code;
    if i < e {
      CodeSpaces(src, i + 1, e);
      CodeUnfold(src, i);
      SpaceToken(src, i);
      assert [] + Code(src, i + 1) == Code(src, i + 1);
    }
  }

  /** The two label stacks hold the labels of the brackets that are open. */
  ghost predicate Stacks(src: string, i: nat, labelB: seq<int>, labelF: seq<int>)
    requires i <= |src|
  {
    && |labelB| == |labelF| == Depth(src, i)
    && forall l :: 0 <= l < |labelB| ==> labelB[l] == 2 * Back(src, i, l) && labelF[l] == 2 * Back(src, i, l) + 1
  }

  lemma StacksKept(src: string, i: nat, e: nat, labelB: seq<int>, labelF: seq<int>)
    requires i <= e <= |src| && (forall k :: i <= k < e ==> src[k] != '[' && src[k] != ']') && Stacks(src, i, labelB, labelF)
    ensures Stacks(src, e, labelB, labelF)
  {
    NoBrackets(src, i, e, 0);
    forall l | 0 <= l < |labelB| ensures Back(src, e, l) == Back(src, i, l) { NoBrackets(src, i, e, l); }
  }

  lemma StacksPush(src: string, i: nat, labelB: seq<int>, labelF: seq<int>)
    requires i < |src| && src[i] == '[' && Stacks(src, i, labelB, labelF)
    ensures Stacks(src, i + 1, labelB + [2 * i], labelF + [2 * i + 1])
  {}

  lemma StacksPop(src: string, i: nat, labelB: seq<int>, labelF: seq<int>)
    requires Balanced(src) && i < |src| && src[i] == ']' && Stacks(src, i, labelB, labelF)
    ensures var n := |labelB| - 1;
      n >= 0 && labelB[n] == 2 * Open(src, i) && labelF[n] == 2 * Open(src, i) + 1 && Stacks(src, i + 1, labelB[..n], labelF[..n])
  {
    var n := |labelB| - 1;
    assert Depth(src, i + 1) == n;
    forall l | 0 <= l < n ensures Back(src, i + 1, l) == Back(src, i, l) {}
  }

  lemma SpacesKeep(src: string, i: nat, e: nat, labelB: seq<int>, labelF: seq<int>)
    requires i <= e <= |src| && (forall k :: i <= k < e ==> IsSpace(src[k])) && Stacks(src, i, labelB, labelF)
    ensures Stacks(src, e, labelB, labelF)
  {
    StacksKept(src, i, e, labelB, labelF);
  }

  /** The program emitted so far, completed by the code of what is still to be read. */
  ghost predicate SoFar(code: seq<Instr>, src: string, i: nat)
    requires i <= |src|
  {
    code + Code(src, i) == PROLOG + Code(src, 0)
  }

  lemma SoFarStep(before: seq<Instr>, after: seq<Instr>, src: string, i: nat, at: nat)
    requires i <= at < |src| && (forall k :: i <= k < at ==> IsSpace(src[k]))
    requires SoFar(before, src, i) && after == before + Token(src, at)
    ensures SoFar(after, src, Next(src, at))
  {
    hide Token;
    CodeSpaces(src, i, at);
    CodeUnfold(src, at);
    hide Code;
    assert before + (Token(src, at) + Code(src, Next(src, at))) == after + Code(src, Next(src, at));
  }

  lemma SoFarDone(code: seq<Instr>, src: string, i: nat)
    requires i <= |src| && (forall k :: i <= k < |src| ==> IsSpace(src[k])) && SoFar(code, src, i)
    ensures code == PROLOG + Code(src, 0)
  {
    CodeSpaces(src, i, |src|);
    assert Code(src, |src|) == [] && code + [] == code;
  }

  /** What Get() has told: everything from i to the character c before pos is white space. */
  ghost predicate Lookahead(src: string, i: nat, pos: nat, ok: bool, c: char) {
    if ok then i < pos <= |src| && c == src[pos - 1] && !IsSpace(c) && forall k :: i <= k < pos - 1 ==> IsSpace(src[k])
    else i <= |src| && forall k :: i <= k < |src| ==> IsSpace(src[k])
  }

  class Compiler {
    var code: seq<Instr>

    /** The constructor of the sample: reads the stream and generates the function. */
    constructor (stream: Stream)
      requires Balanced(stream.text) && stream.pos == 0 && !stream.fail
      modifies stream
      ensures code == Compile(stream.text)
    {
      code := PROLOG;
      new;
      var labelF: seq<int>, labelB: seq<int> := [], [];
      ghost var src := stream.text;
      var ok, c := stream.Get();
      ghost var i := 0;
      assert Stacks(src, 0, [], []) && SoFar(code, src, 0);
      hide Code, Token, Depth, Stacks, Balanced, SoFar, Next;
      while ok
        invariant i <= |src| && ok == !stream.fail && Lookahead(src, i, stream.pos, ok, c) && stream.pos <= |src|
        invariant Stacks(src, i, labelB, labelF) && SoFar(code, src, i)
        decreases |src| - i
      {
        ghost var at, before := stream.pos - 1, code;
        SpacesKeep(src, i, at, labelB, labelF);
        labelB, labelF := EmitToken(stream, c, labelB, labelF);
        SoFarStep(before, code, src, i, at);
        i := Next(src, at);
        ok, c := stream.Get();
      }
      SoFarDone(code, src, i);
      code := code + EPILOG;
    }

    /** The switch on one character. */
    method EmitToken(stream: Stream, c: char, labelB0: seq<int>, labelF0: seq<int>) returns (labelB: seq<int>, labelF: seq<int>)
      requires Balanced(stream.text) && !stream.fail && 0 < stream.pos <= |stream.text|
      requires c == stream.text[stream.pos - 1] && !IsSpace(c) && Stacks(stream.text, stream.pos - 1, labelB0, labelF0)
      modifies this, stream
      ensures stream.pos == Next(stream.text, old(stream.pos) - 1)
      ensures stream.fail ==> stream.pos == |stream.text|
      ensures Stacks(stream.text, stream.pos, labelB, labelF)
      ensures code == old(code) + Token(stream.text, old(stream.pos) - 1)
    {
      var i := stream.pos - 1;
      ghost var src := stream.text;
      labelB, labelF := labelB0, labelF0;
      if c == '+' || c == '-' {
        var count := GetContinuousChar(stream, c, i);
        if count == 1 { code := code + [Add8(EBP, if c == '+' then 1 else -1)]; }
        else { code := code + [Add8(EBP, Sign(c, count))]; }
        StacksKept(src, i, stream.pos, labelB, labelF);
      } else if c == '>' || c == '<' {
        var count := GetContinuousChar(stream, c, i);
        code := code + [Add(R(EBP), I(Wrap(Sign(c, count))))];
        StacksKept(src, i, stream.pos, labelB, labelF);
      } else if c == '.' {
        code := code + [Movzx8(EAX, EBP), Push(R(EAX)), Call(R(ESI)), Pop(EAX)];
        StacksKept(src, i, i + 1, labelB, labelF);
      } else if c == ',' {
        code := code + [Call(R(EDI)), Mov8(EBP)];
        StacksKept(src, i, i + 1, labelB, labelF);
      } else if c == '[' {
        var B, F := 2 * i, 2 * i + 1;
        code := code + [Lab(B), Movzx8(EAX, EBP), Test(R(EAX), R(EAX)), Jz(F)];
        StacksPush(src, i, labelB, labelF);
        labelB, labelF := labelB + [B], labelF + [F];
      } else if c == ']' {
        StacksPop(src, i, labelB, labelF);
        var n := |labelB| - 1;
        code := code + [Jmp(labelB[n]), Lab(labelF[n])];
        labelB, labelF := labelB[..n], labelF[..n];
      } else {
        StacksKept(src, i, i + 1, labelB, labelF);
      }
      assert code == old(code) + Token(src, i);
    }
  }
}
