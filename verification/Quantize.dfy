/** sample/quantize.cpp: choosing a multiplier for an invariant divisor and emitting the division. */
module Quantize {
  import opened Arith
  import opened Division
  import opened Machine

  type u64 = x: int | 0 <= x < 0x1_0000_0000_0000_0000

  /** The chosen m, with or without the increment of the dividend, at the scale 2^(32+len). */
  ghost predicate Suits(odd: nat, nc: nat, scale: int, m: int, increment: bool) {
    if increment then RoundsDown(odd, scale, m) else RoundsUp(odd, nc, scale, m)
  }

  /** What the generated code computes: the high part of m*x or m*(x+1), shifted right by len more bits. */
  function Quotient(m: nat, len: nat, increment: bool, x: nat): int {
    m * (if increment then x + 1 else x) / Pow2(32 + len)
  }

  method ILog2(x: nat) returns (n: nat)
    requires 1 <= x < 0x4000_0000
    ensures Pow2(n) <= x < Pow2(n + 1) && n < 30
  {
    Pow2Is();
    var shift := 0;
    while Pow2(shift) <= x
      invariant shift <= 30 && (shift > 0 ==> Pow2(shift - 1) <= x)
    {
      if shift == 30 { assert false; }
      shift := shift + 1;
    }
    return shift - 1;
  }

  lemma Scale(len: nat)
    ensures Pow2(32 + len) == W * Pow2(len)
    ensures len <= 30 ==> Pow2(32 + len) <= 0x4000_0000_0000_0000
    ensures len > 0 ==> Pow2(32 + len) == 2 * Pow2(32 + (len - 1)) && Pow2(len) % 2 == 0
  {
    Pow2Is();
    Pow2Add(32, len);
    if len <= 30 { Pow2Mono(len, 30); }
    if len > 0 { assert Pow2(32 + len) == 2 * Pow2(32 + len - 1); }
  }

  /** The first rounded-up candidate is good enough, but may need 33 bits. */
  lemma FirstCandidate(odd: nat, nc: nat, len: nat)
    requires IsLargestMultiple(odd, nc) && odd < Pow2(len) && len <= 30
    ensures var scale := Pow2(32 + len); var k := scale / nc;
      k >= Pow2(len) && scale + k < 0x1_0000_0000_0000_0000 && RoundsUp(odd, nc, scale, (scale + k) / odd)
  {
    Scale(len);
    var scale, p := Pow2(32 + len), Pow2(len);
    var k := scale / nc;
    DivBounds(scale, nc);
    MulMono(nc, W, p);
    MulCancel(p, k + 1, nc);
    MulMono(1, nc, k);
    DivBounds(scale + k, odd);
    var m := (scale + k) / odd;
    assert (m + 1) * odd == m * odd + odd;
    MulMono(m * odd - scale, k, nc);
  }

  /** Halving both bounds keeps them correct while they stay apart; one halving is enough to fit 32 bits. */
  lemma Narrow(odd: nat, nc: nat, len: nat, high: nat)
    requires IsLargestMultiple(odd, nc) && 0 < len && Pow2(len - 1) < odd
    requires RoundsUp(odd, nc, Pow2(32 + len), high) && Pow2(32 + len) / odd / 2 < high / 2
    ensures Pow2(32 + len) / odd / 2 == Pow2(32 + (len - 1)) / odd
    ensures RoundsUp(odd, nc, Pow2(32 + (len - 1)), high / 2) && high / 2 < W
  {
    Scale(len); Scale(len - 1);
    var scale := Pow2(32 + (len - 1));
    HalfQuotient(scale, odd);
    HalfHigh(odd, nc, scale, high);
    FitsWord(odd, nc, Pow2(len - 1), high / 2, high / 2 * odd - scale);
  }

  lemma HalfQuotient(scale: nat, odd: nat)
    requires 0 < odd
    ensures 2 * scale / odd / 2 == scale / odd
  {
    DivDiv(2 * scale, odd, 2);
    DivDiv(2 * scale, 2, odd);
    assert odd * 2 == 2 * odd && 2 * scale / 2 == scale;
  }

  lemma HalfHigh(odd: nat, nc: nat, scale: nat, high: nat)
    requires 0 < odd && RoundsUp(odd, nc, 2 * scale, high) && scale / odd < high / 2
    ensures RoundsUp(odd, nc, scale, high / 2)
  {
    var low, h := scale / odd, high / 2;
    DivBounds(scale, odd);
    MulMono(low + 1, h, odd);
    HalfProduct(high, odd);
    var e := h * odd - scale;
    MulMono(2 * e, high * odd - 2 * scale, nc);
    MulAssoc(2, e, nc);
  }

  lemma HalfProduct(m: nat, odd: nat)
    ensures 2 * (m / 2 * odd) <= m * odd
    ensures m % 2 == 0 ==> 2 * (m / 2 * odd) == m * odd
  {
    MulMono(2 * (m / 2), m, odd);
    MulAssoc(2, m / 2, odd);
  }

  lemma FitsWord(odd: nat, nc: nat, p: nat, h: nat, e: nat)
    requires h * odd == W * p + e && e * nc <= W * p && p < odd <= nc
    ensures h < W
  {
    MulMono(p + 1, nc, W);
    assert (p + 1) * W == W * p + W;
    assert nc * W == W * nc;
    MulCancel(e, W, nc);
    MulMono(p + 1, odd, W);
    assert odd * W == W * odd;
    MulCancel(h, W, odd);
  }

  /** The narrowing loop stops at once. */
  ghost predicate Stuck(odd: nat, nc: nat, scale: nat)
    requires 0 < odd && 0 < nc
  {
    scale / odd / 2 >= (scale + scale / nc) / odd / 2
  }

  /** If the bounds cannot be narrowed even once, rounding down leaves a remainder of at most odd/2. */
  lemma FallbackRemainder(odd: nat, nc: nat, len: nat)
    requires IsLargestMultiple(odd, nc) && odd % 2 == 1 && 0 < len <= 30 && Pow2(len - 1) < odd < Pow2(len)
    requires Stuck(odd, nc, Pow2(32 + len))
    ensures var down := Pow2(32 + (len - 1));
      down % odd <= odd / 2 && 0 <= down / odd < W && RoundsDown(odd, down, down / odd)
  {
    FirstCandidate(odd, nc, len);
    Scale(len); Scale(len - 1);
    var scale := Pow2(32 + (len - 1));
    StuckRemainder(odd, nc, scale);
    DownFits(odd, Pow2(len - 1), scale, len - 1);
  }

  lemma StuckRemainder(odd: nat, nc: nat, scale: nat)
    requires 0 < nc && 0 < odd && odd % 2 == 1 && odd <= 2 * scale / nc && Stuck(odd, nc, 2 * scale)
    ensures scale % odd <= odd / 2
  {
    HalfQuotient(scale, odd);
    SmallRemainder(odd, scale, 2 * scale / nc);
  }

  lemma DownFits(odd: nat, p: nat, scale: nat, len: nat)
    requires Pow2(32 + len) == W * p == scale && p < odd < 2 * p && odd % 2 == 1 && scale % odd <= odd / 2
    ensures 0 <= scale / odd < W && RoundsDown(odd, scale, scale / odd)
  {
    var low, r := scale / odd, scale % odd;
    assert scale == low * odd + r;
    ShiftFits(scale, odd);
    if r == 0 { OddNotDividesPow2(odd, low, 32 + len); }
    MulMono(r, p, W);
    MulMono(p + 1, odd, W);
    assert (p + 1) * W == W * p + W && odd * W == W * odd;
    MulCancel(low, W, odd);
  }

  /** Otherwise rounding up would fit under the first candidate, and one narrowing step was possible. */
  lemma SmallRemainder(odd: nat, scale: nat, k: nat)
    requires 0 < odd <= k && odd % 2 == 1 && scale / odd >= (2 * scale + k) / odd / 2
    ensures scale % odd <= odd / 2
  {
    var low, r := scale / odd, scale % odd;
    assert scale == low * odd + r;
    if r > odd / 2 {
      MulAssoc(2, low + 1, odd);
      assert (low + 1) * odd == scale + (odd - r);
      assert (2 * (low + 1)) * odd <= 2 * scale + k;
      DivBounds(2 * scale + k, odd);
      MulCancel(2 * (low + 1), (2 * scale + k) / odd + 1, odd);
    }
  }

  /** An even multiplier can be halved with its scale; at scale 2^32 the multiplier is odd already. */
  lemma HalveMultiplier(odd: nat, nc: nat, len: nat, m: nat, increment: bool)
    requires IsLargestMultiple(odd, nc) && odd < 0x4000_0000 && Suits(odd, nc, Pow2(32 + len), m, increment) && m % 2 == 0
    ensures 0 < len && 0 < m && Suits(odd, nc, Pow2(32 + (len - 1)), m / 2, increment)
  {
    Scale(len); Pow2Is();
    if len == 0 {
      SmallestScale(odd, nc, m, increment);
      HalfProduct(m, odd);
      assert false;
    }
    hide Pow2;
    HalfSuits(odd, nc, Pow2(32 + (len - 1)), m, increment);
  }

  lemma HalfSuits(odd: nat, nc: nat, scale: nat, m: nat, increment: bool)
    requires 0 < odd < 0x4000_0000 && 0x1_0000_0000 <= scale && Suits(odd, nc, 2 * scale, m, increment) && m % 2 == 0
    ensures 0 < m && Suits(odd, nc, scale, m / 2, increment)
  {
    var h := m / 2;
    HalfProduct(m, odd);
    if increment { HalfError(scale - h * odd, W, scale); } else { HalfError(h * odd - scale, nc, scale); }
    if m == 0 { Vanishes(odd, nc, scale, increment); }
  }

  lemma HalfError(e: int, c: nat, scale: int)
    requires (2 * e) * c <= 2 * scale
    ensures e * c <= scale
  {
    assert (2 * e) * c == 2 * (e * c);
  }

  lemma Vanishes(odd: nat, nc: nat, scale: nat, increment: bool)
    requires 0 < odd && 0x1_0000_0000 <= scale
    ensures !Suits(odd, nc, 2 * scale, 0, increment)
  {
    assert 0 * odd == 0;
    if increment { assert (2 * scale) * W > 2 * scale; }
  }

  lemma SmallestScale(odd: nat, nc: nat, m: nat, increment: bool)
    requires IsLargestMultiple(odd, nc) && odd < 0x4000_0000 && Suits(odd, nc, W, m, increment)
    ensures m * odd % 2 == 1
  {
    if increment {
      MulCancel(W - m * odd, 2, W);
    } else {
      MulCancel(m * odd - W, 2, nc);
    }
  }

  /** The two bounds that udiv starts from, kept in unsigned 64-bit variables. */
  method Bounds(odd: nat, len: nat, ghost nc: nat) returns (low: u64, high: u64)
    requires IsLargestMultiple(odd, nc) && nc == W - 1 - (W - 1) % odd && odd < Pow2(len) && len <= 30
    ensures low == Pow2(32 + len) / odd && high == (Pow2(32 + len) + Pow2(32 + len) / nc) / odd
    ensures RoundsUp(odd, nc, Pow2(32 + len), high)
  {
    Scale(len);
    FirstCandidate(odd, nc, len);
    var roundUp: u64 := Pow2(32 + len);
    var k: u64 := roundUp / (0xFFFF_FFFF - 0xFFFF_FFFF % odd);
    ShiftFits(roundUp, odd); ShiftFits(roundUp + k, odd);
    low := roundUp / odd;
    high := (roundUp + k) / odd;
  }

  /** The multiplier used when 33 bits would be needed: round down and increment the dividend. */
  method Fallback(odd: nat, ghost nc: nat, ghost len0: nat) returns (m: int, len: nat)
    requires IsLargestMultiple(odd, nc) && odd % 2 == 1 && 0 < len0 <= 30 && Pow2(len0 - 1) < odd < Pow2(len0) && odd < 0x4000_0000
    requires Stuck(odd, nc, Pow2(32 + len0))
    ensures len == len0 - 1 && 0 <= m < W && RoundsDown(odd, Pow2(32 + len), m)
  {
    FallbackRemainder(odd, nc, len0);
    len := ILog2(odd);
    LogUnique(odd, len, len0 - 1);
    Scale(len);
    var roundDown: u64 := Pow2(32 + len);
    ShiftFits(roundDown, odd);
    var low: u64 := roundDown / odd;
    var r := roundDown % odd;
    m := if r <= odd / 2 then low else low + 1;
  }

  /** Halves both bounds as long as they stay apart. */
  method NarrowBounds(odd: nat, ghost nc: nat, len0: nat, low0: u64, high0: u64) returns (len: nat, high: u64)
    requires IsLargestMultiple(odd, nc) && 0 < len0 && Pow2(len0 - 1) < odd
    requires low0 == Pow2(32 + len0) / odd && RoundsUp(odd, nc, Pow2(32 + len0), high0)
    ensures len <= len0 && RoundsUp(odd, nc, Pow2(32 + len), high)
    ensures if len == len0 then high == high0 && low0 / 2 >= high0 / 2 else high < W
  {
    len, high := len0, high0;
    var low := low0;
    while low / 2 < high / 2 && len > 0
      invariant len <= len0 && low == Pow2(32 + len) / odd && RoundsUp(odd, nc, Pow2(32 + len), high)
      invariant if len == len0 then high == high0 && low == low0 else high < W
    {
      Pow2Mono(len - 1, len0 - 1);
      Narrow(odd, nc, len, high);
      low, high, len := low / 2, high / 2, len - 1;
    }
  }

  /** Moves the factors of two of the multiplier into the shift; the shift never becomes negative. */
  method StripFactors(odd: nat, ghost nc: nat, m0: nat, len0: nat, increment: bool) returns (m: nat, len: nat)
    requires IsLargestMultiple(odd, nc) && odd < 0x4000_0000 && Suits(odd, nc, Pow2(32 + len0), m0, increment)
    ensures m % 2 == 1 && m <= m0 && len <= len0 && Suits(odd, nc, Pow2(32 + len), m, increment)
  {
    m, len := m0, len0;
    while m % 2 == 0
      invariant m <= m0 && len <= len0 && Suits(odd, nc, Pow2(32 + len), m, increment)
      decreases m
    {
      HalveMultiplier(odd, nc, len, m, increment);
      m, len := m / 2, len - 1;
    }
  }

  /** The multiplier search of udiv for an odd divisor above 1. Every intermediate is an unsigned 64-bit value. */
  method Multiplier(odd: nat) returns (m: u32, len: nat, increment: bool)
    requires 1 < odd < 0x4000_0000 && odd % 2 == 1
    ensures m % 2 == 1
    ensures 0 < len ==> Pow2(len - 1) <= odd
    ensures forall x {:trigger x / odd} :: 0 <= x < W ==> Quotient(m, len, increment, x) == x / odd
  {
    var log := ILog2(odd);
    ghost var nc := W - 1 - (W - 1) % odd;
    LargestMultiple(odd);
    assert Pow2(log) != odd by { if log > 0 { Scale(log); } }
    var low, high := Bounds(odd, log + 1, nc);
    len, high := NarrowBounds(odd, nc, log + 1, low, high);
    var mul: int := high;
    increment := high / W != 0;
    if increment {
      mul, len := Fallback(odd, nc, log + 1);
    }
    mul, len := StripFactors(odd, nc, mul, len, increment);
    m := mul;
    if len > 0 { Pow2Mono(len - 1, log); }
    hide Quotient, Suits, IsLargestMultiple, Pow2;
    forall x {:trigger x / odd} | 0 <= x < W ensures Quotient(m, len, increment, x) == x / odd {
      SuitsDivides(odd, nc, len, m, increment, x);
    }
  }

  lemma SuitsDivides(odd: nat, nc: nat, len: nat, m: nat, increment: bool, x: nat)
    requires IsLargestMultiple(odd, nc) && Suits(odd, nc, Pow2(32 + len), m, increment) && x < W
    ensures Quotient(m, len, increment, x) == x / odd
  {
    if increment { RoundDownDivides(odd, Pow2(32 + len), m, x); }
    else { RoundUpDivides(odd, nc, Pow2(32 + len), m, x); }
  }

  lemma LogUnique(x: nat, a: nat, b: nat)
    requires Pow2(a) <= x < Pow2(a + 1) && Pow2(b) <= x < Pow2(b + 1)
    ensures a == b
  {
    if a < b { Pow2Mono(a + 1, b); }
    if b < a { Pow2Mono(b + 1, a); }
  }

  function OddPart(d: nat): (odd: nat)
    requires 0 < d
    ensures odd % 2 == 1 && odd <= d
  {
    if d % 2 == 0 then OddPart(d / 2) else d
  }

  /** Divisors on which udiv's int arithmetic and ilog2 are exact. */
  predicate Divisor(d: nat) {
    0 < d < 0x8000_0000 && OddPart(d) < 0x4000_0000
  }

  /** These are all divisors below 2^30, and the even ones below 2^31. */
  lemma DivisorIs(d: nat)
    ensures Divisor(d) <==> 0 < d < 0x4000_0000 || (d % 2 == 0 && 0 < d < 0x8000_0000)
  {}

  /** The segment divides the word at [esi+offset] by d into eax, destroying edx and the flags only. */
  ghost predicate Divides(seg: seq<Instr>, d: nat, offset: u32)
    requires d > 0
  {
    && (forall i :: i in seg ==> Straight(i))
    && forall env: Env, s: State :: s.status.Running? ==> DividesOn(env, seg, s, d, offset)
  }

  ghost predicate DividesOn(env: Env, seg: seq<Instr>, s: State, d: nat, offset: u32)
    requires d > 0
  {
    var t := Fold(env, seg, s);
    && t.regs.eax == Load32(s.mem, Wrap(s.regs.esi + offset)) / d
    && t == s.(pc := s.pc + |seg|, regs := s.regs.(eax := t.regs.eax, edx := t.regs.edx), zf := t.zf, cf := t.cf)
  }

  /** The instructions udiv emits once the multiplier is known. */
  function MultiplyCode(offset: u32, m: u32, len: nat, increment: bool): seq<Instr> {
    [Mov(R(EAX), M(ESI, offset)), Mov(R(EDX), I(m)), Mul(EDX)]
    + (if increment then [Add(R(EAX), I(m)), Adc(R(EDX), I(0))] else [])
    + (if len > 0 then [Shr(EDX, len)] else [])
    + [Mov(R(EAX), R(EDX))]
  }

  lemma HighHalf(m: u32, x: u32)
    ensures m * (x + 1) == x * m + m && 0 <= x * m <= 0xFFFF_FFFF * m
  {
    MulMono(0, x, m); MulMono(x, 0xFFFF_FFFF, m);
  }

  lemma CarryIn(p: nat, m: u32)
    ensures p / W + (if p % W + m < W then 0 else 1) == (p + m) / W
  {}

  lemma HighWordSum(p: nat, m: u32)
    requires p <= 0xFFFF_FFFF * m
    ensures 0 <= (p + m) / W < W
  {}

  function ShiftCode(len: nat): seq<Instr> {
    (if len > 0 then [Shr(EDX, len)] else []) + [Mov(R(EAX), R(EDX))]
  }

  lemma MultiplyRuns(env: Env, s: State, offset: u32, m: u32, len: nat, increment: bool, x: u32)
    requires s.status.Running? && len <= 31 && x == Read(s, M(ESI, offset))
    ensures var t := Fold(env, MultiplyCode(offset, m, len, increment), s);
      && t.regs.eax == Quotient(m, len, increment, x)
      && t == s.(pc := s.pc + |MultiplyCode(offset, m, len, increment)|,
                 regs := s.regs.(eax := t.regs.eax, edx := t.regs.edx), zf := t.zf, cf := t.cf)
  {
    hide Exec, Load32, Pow2;
    var head := [Mov(R(EAX), M(ESI, offset)), Mov(R(EDX), I(m)), Mul(EDX)];
    var incr := if increment then [Add(R(EAX), I(m)), Adc(R(EDX), I(0))] else [];
    assert MultiplyCode(offset, m, len, increment) == head + incr + ShiftCode(len);
    FoldAdd(env, head + incr, ShiftCode(len), s);
    FoldAdd(env, head, incr, s);
    HeadRuns(env, s, offset, m, x);
    var s3 := Fold(env, head, s);
    ProductFits(x, m);
    if increment {
      HighHalf(m, x);
      CarryIn(x * m, m);
      HighWordSum(x * m, m);
      IncrementRuns(env, s3, m);
      ShiftTail(env, Fold(env, incr, s3), m * (x + 1), len);
    } else {
      ShiftTail(env, s3, x * m, len);
    }
  }

  lemma HeadRuns(env: Env, s: State, offset: u32, m: u32, x: u32)
    requires s.status.Running? && x == Read(s, M(ESI, offset))
    ensures var t := Fold(env, [Mov(R(EAX), M(ESI, offset)), Mov(R(EDX), I(m)), Mul(EDX)], s);
      && t.regs.edx == x * m / W && t.regs.eax == x * m % W
      && t == s.(pc := s.pc + 3, regs := s.regs.(eax := t.regs.eax, edx := t.regs.edx), cf := t.cf)
  {
    var code := [Mov(R(EAX), M(ESI, offset)), Mov(R(EDX), I(m)), Mul(EDX)];
    var s1 := Exec(env, code[0], s).(pc := s.pc + 1);
    var s2 := Exec(env, code[1], s1).(pc := s.pc + 2);
    FoldStep(env, code, code[1..], s);
    FoldStep(env, code[1..], code[2..], s1);
    FoldStep(env, code[2..], [], s2);
  }

  /** add/adc propagate the carry of the low word into edx. */
  lemma IncrementRuns(env: Env, s: State, m: u32)
    requires s.status.Running? && s.regs.edx + (if s.regs.eax + m < W then 0 else 1) < W
    ensures var t := Fold(env, [Add(R(EAX), I(m)), Adc(R(EDX), I(0))], s);
      && t.regs.edx == s.regs.edx + (if s.regs.eax + m < W then 0 else 1)
      && t == s.(pc := s.pc + 2, regs := s.regs.(eax := t.regs.eax, edx := t.regs.edx), zf := t.zf, cf := t.cf)
  {
    var code := [Add(R(EAX), I(m)), Adc(R(EDX), I(0))];
    var s1 := Exec(env, code[0], s).(pc := s.pc + 1);
    AddEffect(env, s, m);
    AdcEffect(env, s1);
    hide Exec, Fold;
    FoldStep(env, code, code[1..], s);
    FoldStep(env, code[1..], [], s1);
    FoldNone(env, Exec(env, code[1], s1).(pc := s.pc + 2));
  }

  lemma AddEffect(env: Env, s: State, m: u32)
    ensures var t := Exec(env, Add(R(EAX), I(m)), s);
      t == s.(regs := s.regs.(eax := t.regs.eax), zf := t.zf, cf := s.regs.eax + m >= W)
  {
    hide Load32, Store32, External;
  }

  lemma AdcEffect(env: Env, s: State)
    requires s.regs.edx + (if s.cf then 1 else 0) < W
    ensures var t := Exec(env, Adc(R(EDX), I(0)), s);
      t == s.(regs := s.regs.(edx := s.regs.edx + (if s.cf then 1 else 0)), zf := t.zf, cf := t.cf)
  {
    hide Load32, Store32, External;
  }

  lemma ShiftTail(env: Env, s: State, p: nat, len: nat)
    requires s.status.Running? && len <= 31 && s.regs.edx == p / W
    ensures var t := Fold(env, ShiftCode(len), s);
      && t.regs.eax == p / Pow2(32 + len)
      && t == s.(pc := s.pc + (if len > 0 then 2 else 1), regs := s.regs.(eax := t.regs.eax, edx := t.regs.eax))
  {
    Scale(len);
    DivDiv(p, W, Pow2(len));
    var move := [Mov(R(EAX), R(EDX))];
    if len > 0 {
      assert len % 32 == len;
      var t := Exec(env, Shr(EDX, len), s).(pc := s.pc + 1);
      FoldStep(env, [Shr(EDX, len)] + move, move, s);
      FoldStep(env, move, [], t);
    } else {
      assert [] + move == move;
      assert Pow2(0) == 1 && p / Pow2(32) == p / W;
      FoldStep(env, move, [], s);
    }
  }

  /** Shifting by the exponent too divides by the even part. */
  lemma ShiftExponent(m: u32, len: nat, increment: bool, odd: nat, exponent: nat, d: nat, x: nat)
    requires 0 < odd && odd * Pow2(exponent) == d && Quotient(m, len, increment, x) == x / odd
    ensures Quotient(m, len + exponent, increment, x) == x / d
  {
    var p := m * (if increment then x + 1 else x);
    MulMono(0, m, if increment then x + 1 else x);
    Pow2Add(32 + len, exponent);
    DivDiv(p, Pow2(32 + len), Pow2(exponent));
    DivDiv(x, odd, Pow2(exponent));
  }

  function TrivialCode(offset: u32, exponent: nat): seq<Instr> {
    [Mov(R(EAX), M(ESI, offset))] + (if exponent > 0 then [Shr(EAX, exponent)] else [])
  }

  lemma TrivialDivides(offset: u32, exponent: nat)
    requires exponent <= 31
    ensures Divides(TrivialCode(offset, exponent), Pow2(exponent), offset)
  {
    hide Load32, External;
    var load, shift := Mov(R(EAX), M(ESI, offset)), if exponent > 0 then [Shr(EAX, exponent)] else [];
    forall env: Env, s: State | s.status.Running?
      ensures DividesOn(env, TrivialCode(offset, exponent), s, Pow2(exponent), offset)
    {
      FoldStep(env, [load] + shift, shift, s);
      if exponent > 0 { FoldStep(env, shift, [], Exec(env, load, s).(pc := s.pc + 1)); }
    }
  }

  lemma SmallShift(odd: nat, k: nat, exponent: nat)
    requires Pow2(k) <= odd && odd * Pow2(exponent) < 0x8000_0000
    ensures k + exponent < 31
  {
    Pow2Add(k, exponent);
    MulMono(Pow2(k), odd, Pow2(exponent));
    if k + exponent >= 31 { Pow2Mono(31, k + exponent); Pow2Is(); }
  }

  lemma MultiplyIsStraight(offset: u32, m: u32, len: nat, increment: bool)
    ensures forall i :: i in MultiplyCode(offset, m, len, increment) ==> Straight(i)
  {}

  lemma MultiplierDivides(seg: seq<Instr>, offset: u32, m: u32, len: nat, increment: bool, odd: nat, exponent: nat, d: nat)
    requires 0 < odd && odd * Pow2(exponent) == d && len + exponent <= 31 && seg == MultiplyCode(offset, m, len + exponent, increment)
    requires forall x {:trigger x / odd} :: 0 <= x < W ==> Quotient(m, len, increment, x) == x / odd
    ensures 0 < d && Divides(seg, d, offset)
  {
    MulMono(1, odd, Pow2(exponent));
    MultiplyIsStraight(offset, m, len + exponent, increment);
    hide Pow2, Quotient, MultiplyCode, Fold, Exec, Straight, Load32;
    forall env: Env, s: State | s.status.Running? ensures DividesOn(env, seg, s, d, offset) {
      var x := Read(s, M(ESI, offset));
      assert x / odd == Quotient(m, len, increment, x);
      MultiplyRuns(env, s, offset, m, len + exponent, increment, x);
      ShiftExponent(m, len, increment, odd, exponent, d, x);
    }
  }

  /** dividend = odd * 2^exponent. */
  method FactorOut(dividend: u32) returns (odd: nat, exponent: nat)
    requires Divisor(dividend)
    ensures odd % 2 == 1 && odd < 0x4000_0000 && odd * Pow2(exponent) == dividend && exponent <= 31
  {
    exponent, odd := 0, dividend;
    while odd % 2 == 0
      invariant 0 < odd && odd * Pow2(exponent) == dividend && OddPart(odd) == OddPart(dividend)
      decreases odd
    {
      MulAssoc(odd / 2, 2, Pow2(exponent));
      odd, exponent := odd / 2, exponent + 1;
    }
    SmallShift(odd, 0, exponent);
  }

  /** The C loop: dest[i] = src[i] / q[i] for the first n elements, one word at a time. */
  function Reference(m: Memory, dest: u32, src: u32, q: seq<u32>, n: nat): Memory
    requires n <= |q| && forall i :: 0 <= i < |q| ==> q[i] > 0
  {
    if n == 0 then m
    else
      var before := Reference(m, dest, src, q, n - 1);
      var x := Load32(before, Wrap(src + 4 * (n - 1)));
      ShiftFits(x, q[n - 1]);
      Store32(before, Wrap(dest + 4 * (n - 1)), x / q[n - 1])
  }

  /** The segment has done the first n elements of the C loop on the arrays at edi and esi. */
  ghost predicate LoopOn(env: Env, seg: seq<Instr>, s: State, q: seq<u32>, n: nat)
    requires n <= |q| && forall i :: 0 <= i < |q| ==> q[i] > 0
  {
    var t := Fold(env, seg, s);
    t == s.(pc := s.pc + |seg|, mem := Reference(s.mem, s.regs.edi, s.regs.esi, q, n),
            regs := s.regs.(eax := t.regs.eax, edx := t.regs.edx), zf := t.zf, cf := t.cf)
  }

  ghost predicate Loops(seg: seq<Instr>, q: seq<u32>, n: nat)
    requires n <= |q| && forall i :: 0 <= i < |q| ==> q[i] > 0
  {
    && (forall i :: i in seg ==> Straight(i))
    && forall env: Env, s: State :: s.status.Running? ==> LoopOn(env, seg, s, q, n)
  }

  lemma LoopStep(seg: seq<Instr>, divide: seq<Instr>, q: seq<u32>, n: nat)
    requires n < |q| && (forall i :: 0 <= i < |q| ==> q[i] > 0) && 4 * n < W
    requires Loops(seg, q, n) && Divides(divide, q[n], 4 * n)
    ensures Loops(seg + divide + [Mov(M(EDI, 4 * n), R(EAX))], q, n + 1)
  {
    hide LoopOn, DividesOn;
    var all, k := seg + divide + [Mov(M(EDI, 4 * n), R(EAX))], n + 1;
    forall env: Env, s: State | s.status.Running? ensures LoopOn(env, all, s, q, k) {
      assert LoopOn(env, seg, s, q, n);
      var t := Fold(env, seg, s);
      LoopRunning(env, seg, s, q, n);
      assert DividesOn(env, divide, t, q[n], 4 * n);
      LoopStepOn(env, seg, divide, s, q, n);
    }
  }

  lemma LoopRunning(env: Env, seg: seq<Instr>, s: State, q: seq<u32>, n: nat)
    requires n <= |q| && (forall i :: 0 <= i < |q| ==> q[i] > 0) && LoopOn(env, seg, s, q, n) && s.status.Running?
    ensures Fold(env, seg, s).status.Running?
  {
    hide Fold, Reference;
  }

  lemma LoopStepOn(env: Env, seg: seq<Instr>, divide: seq<Instr>, s: State, q: seq<u32>, n: nat)
    requires n < |q| && (forall i :: 0 <= i < |q| ==> q[i] > 0) && 4 * n < W && s.status.Running?
    requires LoopOn(env, seg, s, q, n) && DividesOn(env, divide, Fold(env, seg, s), q[n], 4 * n)
    ensures LoopOn(env, seg + divide + [Mov(M(EDI, 4 * n), R(EAX))], s, q, n + 1)
  {
    hide Load32, Store32, Exec, Fold;
    var store := [Mov(M(EDI, 4 * n), R(EAX))];
    FoldAdd(env, seg + divide, store, s);
    FoldAdd(env, seg, divide, s);
    var t := Fold(env, seg, s);
    var u := Fold(env, divide, t);
    FoldStep(env, store, [], u);
    FoldNone(env, Exec(env, store[0], u).(pc := u.pc + 1));
    StoreEffect(env, u, 4 * n);
  }

  lemma StoreEffect(env: Env, s: State, offset: u32)
    ensures Exec(env, Mov(M(EDI, offset), R(EAX)), s) == s.(mem := Store32(s.mem, Wrap(s.regs.edi + offset), s.regs.eax))
  {
    hide Load32, Store32, External;
  }

  /** What the whole generated function does when called as quantize(dest, src): the memory of the C loop,
      and the callee-saved registers and the stack as they were. */
  ghost predicate Computes(code: seq<Instr>, q: seq<u32>)
    requires forall i :: 0 <= i < |q| ==> q[i] > 0
  {
    forall env: Env, s: State :: s.status.Running? && s.pc == 0 && |s.stack| >= 3 ==> ComputesOn(code, env, s, q)
  }

  ghost predicate ComputesOn(code: seq<Instr>, env: Env, s: State, q: seq<u32>)
    requires |s.stack| >= 3 && forall i :: 0 <= i < |q| ==> q[i] > 0
  {
    var t := Steps(code, env, s, |code|);
    t == s.(pc := |code|, mem := Reference(s.mem, s.stack[1], s.stack[2], q, |q|),
            regs := s.regs.(eax := t.regs.eax, edx := t.regs.edx), zf := t.zf, cf := t.cf, status := Halted)
  }

  lemma ProgramComputes(body: seq<Instr>, q: seq<u32>)
    requires (forall i :: 0 <= i < |q| ==> q[i] > 0) && Loops(body, q, |q|)
    ensures Computes(PROLOG + body + EPILOG, q)
  {
    hide Load32, Store32, External;
    var code := PROLOG + body + EPILOG;
    forall env: Env, s: State | s.status.Running? && s.pc == 0 && |s.stack| >= 3 ensures ComputesOn(code, env, s, q) {
      assert code[0..|code|] == code;
      FoldSteps(code, env, code, s);
      FoldAdd(env, PROLOG + body, EPILOG, s);
      FoldAdd(env, PROLOG, body, s);
      var t := s.(pc := 4, stack := [s.regs.edi, s.regs.esi] + s.stack, regs := s.regs.(edi := s.stack[1], esi := s.stack[2]));
      PrologRuns(env, s);
      assert LoopOn(env, body, t, q, |q|);
      EpilogRuns(env, Fold(env, body, t));
    }
  }

  const PROLOG := [Push(R(ESI)), Push(R(EDI)), Mov(R(EDI), Arg(3)), Mov(R(ESI), Arg(4))]
  const EPILOG := [Pop(EDI), Pop(ESI), Ret]

  lemma PrologRuns(env: Env, s: State)
    requires s.status.Running? && |s.stack| >= 3
    ensures Fold(env, PROLOG, s) == s.(pc := s.pc + 4, stack := [s.regs.edi, s.regs.esi] + s.stack,
                                       regs := s.regs.(edi := s.stack[1], esi := s.stack[2]))
  {
    hide Fold;
    var s1 := Exec(env, PROLOG[0], s).(pc := s.pc + 1);
    var s2 := Exec(env, PROLOG[1], s1).(pc := s.pc + 2);
    var s3 := Exec(env, PROLOG[2], s2).(pc := s.pc + 3);
    FoldNone(env, Exec(env, PROLOG[3], s3).(pc := s.pc + 4));
    assert s2.stack == [s.regs.edi, s.regs.esi] + s.stack;
    FoldStep(env, PROLOG, PROLOG[1..], s);
    FoldStep(env, PROLOG[1..], PROLOG[2..], s1);
    FoldStep(env, PROLOG[2..], PROLOG[3..], s2);
    FoldStep(env, PROLOG[3..], [], s3);
  }

  lemma EpilogRuns(env: Env, s: State)
    requires s.status.Running? && |s.stack| >= 2
    ensures Fold(env, EPILOG, s) == s.(pc := s.pc + 3, stack := s.stack[2..], status := Halted,
                                       regs := s.regs.(edi := s.stack[0], esi := s.stack[1]))
  {
    hide Fold;
    var s1 := Exec(env, EPILOG[0], s).(pc := s.pc + 1);
    var s2 := Exec(env, EPILOG[1], s1).(pc := s.pc + 2);
    assert s2.stack == s.stack[2..];
    FoldStep(env, EPILOG, EPILOG[1..], s);
    FoldStep(env, EPILOG[1..], EPILOG[2..], s1);
    FoldStep(env, EPILOG[2..], [], s2);
    FoldNone(env, Exec(env, EPILOG[2], s2).(pc := s.pc + 3));
  }

  class Quantizer {
    var code: seq<Instr>

    /** The constructor of the sample: generates the function for a table of divisors. */
    constructor (q: seq<u32>)
      requires |q| == 64 && forall i :: 0 <= i < |q| ==> q[i] > 0 && Divisor(q[i])
      ensures Computes(code, q)
    {
      code := [];
      new;
      code := PROLOG;
      ghost var body := [];
      for i := 0 to 64
        invariant code == PROLOG + body && Loops(body, q, i)
      {
        ghost var before := code;
        UDiv(q[i], 4 * i);
        ghost var divide := code[|before|..];
        code := code + [Mov(M(EDI, 4 * i), R(EAX))];
        LoopStep(body, divide, q, i);
        body := body + divide + [Mov(M(EDI, 4 * i), R(EAX))];
      }
      code := code + EPILOG;
      ProgramComputes(body, q);
    }

    method UDiv(dividend: u32, offset: u32)
      requires Divisor(dividend)
      modifies this
      ensures old(code) <= code
      ensures Divides(code[|old(code)|..], dividend, offset)
    {
      hide Divides, Quotient, Pow2, OddPart;
      ghost var before := code;
      code := code + [Mov(R(EAX), M(ESI, offset))];
      var odd, exponent := FactorOut(dividend);
      if odd == 1 {
        if exponent > 0 {
          code := code + [Shr(EAX, exponent)];
        }
        assert code == before + TrivialCode(offset, exponent);
        assert code[|before|..] == TrivialCode(offset, exponent);
        TrivialDivides(offset, exponent);
        return;
      }
      var m, len, increment := Multiplier(odd);
      if len > 0 { SmallShift(odd, len - 1, exponent); }
      ghost var len0 := len;
      len := len + exponent;
      code := code + [Mov(R(EDX), I(m)), Mul(EDX)];
      if increment {
        code := code + [Add(R(EAX), I(m)), Adc(R(EDX), I(0))];
      }
      if len > 0 {
        code := code + [Shr(EDX, len)];
      }
      code := code + [Mov(R(EAX), R(EDX))];
      assert code == before + MultiplyCode(offset, m, len, increment);
      MultiplierDivides(code[|before|..], offset, m, len0, increment, odd, exponent, dividend);
    }
  }
}
