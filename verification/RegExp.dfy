/** xbyak/xbyak.h: RegExp, the value an address expression such as rax+rcx*4+8 builds. */
module RegExps {
  import opened Bytes

  const W64: int := 0x1_0000_0000_0000_0000
  const ESP := 4

  /** A register by number and width; width 0 is the absent register. */
  datatype Reg = Reg(idx: int, bit: int)

  const NONE := Reg(0, 0)

  predicate General(r: Reg) {
    0 <= r.idx < 32 && (r.bit == 32 || r.bit == 64)
  }

  /** xmm, ymm, zmm and tmm registers. */
  predicate Vector(r: Reg) {
    0 <= r.idx < 32 && (r.bit == 128 || r.bit == 256 || r.bit == 512 || r.bit == 8192)
  }

  datatype RegExp = RegExp(base: Reg, index: Reg, scale: int, disp: int, named: Option<nat>, rip: bool, asPtr: bool)

  /** The C++ expressions that build a RegExp. */
  datatype Tree =
    | Term(r: Reg, scale: int)          // r, r * scale, scale * r
    | Number(d: int)
    | Pointer(d: int)                   // a const void*
    | Named(id: nat, at: Option<int>)   // a label, with its address if it is defined
    | Rip
    | Plus(a: Tree, b: Tree)
    | PlusNumber(a: Tree, d: int)
    | MinusNumber(a: Tree, d: int)

  function Wrap(v: int): (w: int)
    ensures 0 <= w < W64
  {
    v % W64
  }

  /** The constructor from a register. */
  function FromReg(r: Reg, scale: int): Option<RegExp> {
    var e := RegExp(NONE, NONE, scale, 0, None, false, false);
    if !General(r) && !Vector(r) then None
    else if scale == 0 then Some(e)
    else if scale != 1 && scale != 2 && scale != 4 && scale != 8 then None
    else if r.bit >= 128 || scale != 1 then Some(e.(index := r))
    else Some(e.(base := r))
  }

  predicate OnlyDisp(e: RegExp) {
    e.base.bit == 0 && e.index.bit == 0
  }

  /** operator+ on two expressions. */
  function Add(a: RegExp, b: RegExp): Option<RegExp> {
    if a.index.bit != 0 && b.index.bit != 0 then None
    else if a.named.Some? && b.named.Some? then None
    else if b.rip || (a.rip && !OnlyDisp(b)) then None
    else if a.asPtr && b.asPtr then None
    else
      var r := a.(named := if a.named.None? then b.named else a.named, asPtr := a.asPtr || b.asPtr,
                  index := if a.index.bit == 0 then b.index else a.index,
                  scale := if a.index.bit == 0 then b.scale else a.scale,
                  disp := Wrap(a.disp + b.disp));
      if b.base.bit == 0 then Some(r)
      else if r.base.bit == 0 then Some(r.(base := b.base))
      else if r.index.bit != 0 then None
      else if b.base.idx == ESP then Some(r.(base := b.base, index := r.base, scale := 1))
      else Some(r.(index := b.base, scale := 1))
  }

  function Build(t: Tree): Option<RegExp> {
    match t
    case Term(r, s) => FromReg(r, s)
    case Number(d) => Some(RegExp(NONE, NONE, 0, Wrap(d), None, false, false))
    case Pointer(d) => Some(RegExp(NONE, NONE, 0, Wrap(d), None, false, true))
    case Named(id, at) =>
      Some(if at.Some? then RegExp(NONE, NONE, 1, Wrap(at.value), None, false, true)
           else RegExp(NONE, NONE, 1, 0, Some(id), false, true))
    case Rip => Some(RegExp(NONE, NONE, 0, 0, None, true, false))
    case Plus(a, b) =>
      var x :- Build(a);
      var y :- Build(b);
      Add(x, y)
    case PlusNumber(a, d) =>
      var x :- Build(a);
      Some(x.(disp := Wrap(x.disp + d)))
    case MinusNumber(a, d) =>
      var x :- Build(a);
      Some(x.(disp := Wrap(x.disp - d)))
  }

  /** [reg * 2] becomes [reg + reg]. */
  function Optimize(e: RegExp): RegExp {
    if General(e.index) && e.base.bit == 0 && e.scale == 2 then e.(base := e.index, scale := 1) else e
  }

  predicate Verified(e: RegExp) {
    && e.base.bit < 128
    && (e.index.bit != 0 && e.index.bit <= 64 ==>
      e.index.idx != ESP && (e.base.bit == 0 || e.base.bit == e.index.bit))
  }

  /** What the parts of an address stand for when the instruction runs. */
  datatype Env = Env(reg: Reg -> int, rip: int, named: nat -> int)

  function Times(v: int, scale: int): (t: int)
    ensures scale in {0, 1, 2, 4, 8} ==> t == v * scale
  {
    if scale == 1 then v else if scale == 2 then 2 * v else if scale == 4 then 4 * v else if scale == 8 then 8 * v else 0
  }

  function Of(env: Env, r: Reg): int {
    if r.bit == 0 then 0 else env.reg(r)
  }

  function Value(e: RegExp, env: Env): int {
    Of(env, e.base) + Times(Of(env, e.index), e.scale) + e.disp
    + (if e.named.Some? then env.named(e.named.value) else 0) + (if e.rip then env.rip else 0)
  }

  /** What the expression says, over the integers. */
  function Eval(t: Tree, env: Env): int {
    match t
    case Term(r, s) => Times(env.reg(r), s)
    case Number(d) => d
    case Pointer(d) => d
    case Named(id, at) => if at.Some? then at.value else env.named(id)
    case Rip => env.rip
    case Plus(a, b) => Eval(a, env) + Eval(b, env)
    case PlusNumber(a, d) => Eval(a, env) + d
    case MinusNumber(a, d) => Eval(a, env) - d
  }

  /** Equal modulo 2^64. */
  ghost predicate Same(a: int, b: int) {
    exists k: int :: a == b + k * W64
  }

  lemma WrapSame(v: int)
    ensures Same(Wrap(v), v)
  {
    assert Wrap(v) == v + (0 - v / W64) * W64;
  }

  lemma SameAdd(a: int, b: int, c: int, d: int)
    requires Same(a, b) && Same(c, d)
    ensures Same(a + c, b + d)
  {
    var k :| a == b + k * W64;
    var l :| c == d + l * W64;
    assert a + c == b + d + (k + l) * W64;
  }

  lemma SameStep(a: int, b: int, c: int)
    requires Same(a, b) && Same(b, c)
    ensures Same(a, c)
  {
    var k :| a == b + k * W64;
    var l :| b == c + l * W64;
    assert a == c + (k + l) * W64;
  }

  lemma SameSame(a: int)
    ensures Same(a, a)
  {
    assert a == a + 0 * W64;
  }

  lemma AddValue(a: RegExp, b: RegExp, env: Env)
    requires Add(a, b).Some?
    ensures Same(Value(Add(a, b).value, env), Value(a, env) + Value(b, env))
  {
    var r := Add(a, b).value;
    var k := r.disp - a.disp - b.disp;
    WrapSame(a.disp + b.disp);
    var rest := Value(a, env) + Value(b, env) - (a.disp + b.disp);
    assert Value(r, env) == rest + r.disp;
    hide Value, Add, Wrap;
    SameSame(rest);
    SameAdd(rest, rest, r.disp, a.disp + b.disp);
  }

  /** Building an expression keeps its value, modulo 2^64, whatever the registers, labels and rip hold. */
  lemma {:induction false} BuildKeepsValue(t: Tree, env: Env)
    requires Build(t).Some?
    ensures Same(Value(Build(t).value, env), Eval(t, env))
  {
    hide Same, Add, FromReg, Value;
    var e := Build(t).value;
    match t
    case Plus(a, b) =>
      BuildKeepsValue(a, env);
      BuildKeepsValue(b, env);
      var x, y := Build(a).value, Build(b).value;
      AddValue(x, y, env);
      SameAdd(Value(x, env), Eval(a, env), Value(y, env), Eval(b, env));
      SameStep(Value(e, env), Value(x, env) + Value(y, env), Eval(t, env));
    case PlusNumber(a, d) =>
      BuildKeepsValue(a, env);
      Shifted(Build(a).value, d, env, Eval(a, env));
    case MinusNumber(a, d) =>
      BuildKeepsValue(a, env);
      Shifted(Build(a).value, 0 - d, env, Eval(a, env));
    case _ => LeafKeepsValue(t, env);
  }

  lemma LeafKeepsValue(t: Tree, env: Env)
    requires Build(t).Some? && !t.Plus? && !t.PlusNumber? && !t.MinusNumber?
    ensures Same(Value(Build(t).value, env), Eval(t, env))
  {
    hide Same;
    match t
    case Number(d) => WrapSame(d);
    case Pointer(d) => WrapSame(d);
    case Named(id, at) => if at.Some? { WrapSame(at.value); } else { SameSame(Eval(t, env)); }
    case _ => SameSame(Eval(t, env));
  }

  lemma Shifted(x: RegExp, d: int, env: Env, v: int)
    requires Same(Value(x, env), v)
    ensures Same(Value(x.(disp := Wrap(x.disp + d)), env), v + d)
  {
    hide Same;
    var y := x.(disp := Wrap(x.disp + d));
    WrapSame(x.disp + d);
    SameSame(Value(x, env) - x.disp);
    SameAdd(Value(x, env) - x.disp, Value(x, env) - x.disp, y.disp, x.disp + d);
    SameSame(d);
    SameAdd(Value(x, env), v, d, d);
    SameStep(Value(y, env), Value(x, env) + d, v + d);
  }

  /** optimize() keeps the value exactly, and never makes esp an index. */
  lemma OptimizeKeeps(e: RegExp, env: Env)
    ensures Value(Optimize(e), env) == Value(e, env)
    ensures Verified(e) ==> Verified(Optimize(e)) && Optimize(e).index == e.index
  {}

  /** The registers of an expression, in order: those without a scale, and those that can only be an index. */
  function Plain(t: Tree): seq<Reg> {
    match t
    case Term(r, s) => if s == 1 && r.bit < 128 then [r] else []
    case Plus(a, b) => Plain(a) + Plain(b)
    case PlusNumber(a, _) => Plain(a)
    case MinusNumber(a, _) => Plain(a)
    case _ => []
  }

  function Scaled(t: Tree): seq<(Reg, int)> {
    match t
    case Term(r, s) => if s == 0 || (s == 1 && r.bit < 128) then [] else [(r, s)]
    case Plus(a, b) => Scaled(a) + Scaled(b)
    case PlusNumber(a, _) => Scaled(a)
    case MinusNumber(a, _) => Scaled(a)
    case _ => []
  }

  /** Labels count as pointers. */
  function Pointers(t: Tree): nat {
    match t
    case Pointer(_) => 1
    case Named(_, _) => 1
    case Plus(a, b) => Pointers(a) + Pointers(b)
    case PlusNumber(a, _) => Pointers(a)
    case MinusNumber(a, _) => Pointers(a)
    case _ => 0
  }

  predicate HasRip(t: Tree) {
    match t
    case Rip => true
    case Plus(a, b) => HasRip(a) || HasRip(b)
    case PlusNumber(a, _) => HasRip(a)
    case MinusNumber(a, _) => HasRip(a)
    case _ => false
  }

  /** rip comes first, if at all, and has no register with it. */
  predicate RipFits(t: Tree) {
    match t
    case Plus(a, b) => RipFits(a) && RipFits(b) && !HasRip(b) && (HasRip(a) ==> Plain(b) == [] && Scaled(b) == [])
    case PlusNumber(a, _) => RipFits(a)
    case MinusNumber(a, _) => RipFits(a)
    case _ => true
  }

  predicate TermsFit(t: Tree) {
    match t
    case Term(r, s) => (General(r) || Vector(r)) && (s == 0 || s == 1 || s == 2 || s == 4 || s == 8)
    case Plus(a, b) => TermsFit(a) && TermsFit(b)
    case PlusNumber(a, _) => TermsFit(a)
    case MinusNumber(a, _) => TermsFit(a)
    case _ => true
  }

  predicate Countable(t: Tree) {
    |Plain(t)| + |Scaled(t)| <= 2 && |Scaled(t)| <= 1 && Pointers(t) <= 1
  }

  /** Where the registers of an expression end up. */
  predicate Shape(e: RegExp, plain: seq<Reg>, scaled: seq<(Reg, int)>) {
    && |plain| + |scaled| <= 2 && |scaled| <= 1
    && (forall i :: 0 <= i < |plain| ==> General(plain[i]))
    && (forall i :: 0 <= i < |scaled| ==> (General(scaled[i].0) || Vector(scaled[i].0)) && scaled[i].1 in {1, 2, 4, 8})
    && (if |plain| == 0 then e.base == NONE
        else if |plain| == 1 then e.base == plain[0]
        else e.scale == 1 && if plain[1].idx == ESP then e.base == plain[1] && e.index == plain[0]
                             else e.base == plain[0] && e.index == plain[1])
    && (if |scaled| == 1 then e.index == scaled[0].0 && e.scale == scaled[0].1 else |plain| == 2 || e.index == NONE)
  }

  ghost predicate Describes(e: RegExp, t: Tree) {
    Shape(e, Plain(t), Scaled(t)) && e.rip == HasRip(t) && Pointers(t) == (if e.asPtr then 1 else 0) && (e.named.Some? ==> e.asPtr)
  }

  lemma AddShape(a: RegExp, pa: seq<Reg>, sa: seq<(Reg, int)>, b: RegExp, pb: seq<Reg>, sb: seq<(Reg, int)>)
    requires Shape(a, pa, sa) && Shape(b, pb, sb)
    requires !(a.asPtr && b.asPtr) && !(a.named.Some? && b.named.Some?)
    requires !b.rip && (a.rip ==> pb == [] && sb == [])
    ensures Add(a, b).Some? <==> |pa + pb| + |sa + sb| <= 2 && |sa + sb| <= 1
    ensures Add(a, b).Some? ==> Shape(Add(a, b).value, pa + pb, sa + sb)
  {
    assert pb == [] ==> pa + pb == pa;
    assert pa == [] ==> pa + pb == pb;
    assert sb == [] ==> sa + sb == sa;
    assert sa == [] ==> sa + sb == sb;
  }

  lemma EmptyShape(e: RegExp, plain: seq<Reg>, scaled: seq<(Reg, int)>)
    requires Shape(e, plain, scaled)
    ensures OnlyDisp(e) <==> plain == [] && scaled == []
  {}

  lemma AddDescribes(x: RegExp, a: Tree, y: RegExp, b: Tree)
    requires Describes(x, a) && Describes(y, b)
    ensures Add(x, y).Some? <==>
      && !HasRip(b) && (HasRip(a) ==> Plain(b) == [] && Scaled(b) == []) && Pointers(a) + Pointers(b) <= 1
      && |Plain(a) + Plain(b)| + |Scaled(a) + Scaled(b)| <= 2 && |Scaled(a) + Scaled(b)| <= 1
    ensures Add(x, y).Some? ==> Describes(Add(x, y).value, Plus(a, b))
  {
    EmptyShape(y, Plain(b), Scaled(b));
    if x.asPtr && y.asPtr {
      hide Shape;
    } else if y.rip || (x.rip && !OnlyDisp(y)) {
      hide Shape, OnlyDisp;
    } else {
      hide OnlyDisp;
      AddShape(x, Plain(a), Scaled(a), y, Plain(b), Scaled(b));
      if Add(x, y).Some? { AddRest(x, y); }
      hide Add, Shape;
    }
  }

  lemma AddRest(x: RegExp, y: RegExp)
    requires Add(x, y).Some?
    ensures var r := Add(x, y).value;
      && r.rip == x.rip && (r.asPtr <==> x.asPtr || y.asPtr) && (r.named.Some? <==> x.named.Some? || y.named.Some?)
  {}

  /** Which expressions are accepted does not depend on how they are nested or ordered, apart from rip: at most
      two registers, at most one of them scaled, and one label or pointer. */
  lemma {:induction false} BuildAccepts(t: Tree)
    ensures Build(t).Some? <==> TermsFit(t) && RipFits(t) && Countable(t)
    ensures Build(t).Some? ==> Describes(Build(t).value, t)
  {
    match t
    case Plus(a, b) =>
      hide Shape, Add, Describes;
      BuildAccepts(a);
      BuildAccepts(b);
      if Build(a).Some? && Build(b).Some? { AddDescribes(Build(a).value, a, Build(b).value, b); }
    case PlusNumber(a, d) => BuildAccepts(a);
    case MinusNumber(a, d) => BuildAccepts(a);
    case _ =>
  }

  /** An operand with esp as the only index, or with registers of two widths. */
  predicate Misfit(t: Tree) {
    var p, s := Plain(t), Scaled(t);
    || (|s| == 1 && General(s[0].0) && (s[0].0.idx == ESP || (|p| == 1 && p[0].bit != s[0].0.bit)))
    || (|p| == 2 && (p[0].bit != p[1].bit || (p[0].idx == ESP && p[1].idx == ESP)))
  }

  /** A base is never a vector register, so the first test of verify() cannot fail. */
  lemma BaseIsGeneral(t: Tree)
    requires Build(t).Some?
    ensures Build(t).value.base == NONE || General(Build(t).value.base)
    ensures Build(t).value.base.bit < 128
  {
    BuildAccepts(t);
  }

  /** A built expression passes verify() exactly when it has no such operand; its base is always general. */
  lemma VerifyAccepts(t: Tree)
    requires Build(t).Some?
    ensures Verified(Build(t).value) <==> !Misfit(t)
  {
    BuildAccepts(t);
    var p, s := Plain(t), Scaled(t);
  }
}
