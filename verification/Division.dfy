/** Why a multiplier, a shift and an optional increment replace a 32-bit unsigned division. */
module Division {
  import opened Arith

  /** nc is the largest multiple of odd that is below 2^32; 2^32 itself is not a multiple. */
  ghost predicate IsLargestMultiple(odd: nat, nc: nat) {
    1 < odd && odd <= nc < W && nc % odd == 0 && W < nc + odd
  }

  /** m is a rounded-up quotient of scale = 2^(32+len) by odd whose error is small enough. */
  ghost predicate RoundsUp(odd: nat, nc: nat, scale: int, m: int) {
    scale < m * odd && (m * odd - scale) * nc <= scale
  }

  /** m is a rounded-down quotient of scale = 2^(32+len) by odd whose error is small enough. */
  ghost predicate RoundsDown(odd: nat, scale: int, m: int) {
    m * odd < scale && (scale - m * odd) * W <= scale
  }

  lemma LargestMultiple(odd: nat)
    requires 1 < odd < W && odd % 2 == 1
    ensures IsLargestMultiple(odd, W - 1 - (W - 1) % odd)
  {
    var q, r := (W - 1) / odd, (W - 1) % odd;
    assert W - 1 - r == q * odd;
    MulCancel(0, q, odd);
    MulMono(1, q, odd);
    MultipleMod(q, odd);
    if r == odd - 1 {
      assert (q + 1) * odd == W;
      Pow2Is();
      OddNotDividesPow2(odd, q + 1, 32);
    }
  }

  lemma MultipleMod(q: nat, d: nat)
    requires 0 < d
    ensures q * d % d == 0
  {
    assert q * d < (q + 1) * d;
    DivUnique(q * d, d, q);
  }

  lemma {:induction false} OddNotDividesPow2(odd: nat, q: nat, n: nat)
    requires odd % 2 == 1 && 1 < odd
    ensures q * odd != Pow2(n)
  {
    if q * odd == Pow2(n) {
      if n == 0 {
        if q >= 1 { MulMono(1, q, odd); }
      } else {
        assert q % 2 == 0 by { if q % 2 == 1 { OddTimesOdd(q, odd); } }
        assert q == q / 2 * 2;
        assert q * odd == 2 * (q / 2 * odd);
        OddNotDividesPow2(odd, q / 2, n - 1);
      }
    }
  }

  lemma OddTimesOdd(a: nat, b: nat)
    requires a % 2 == 1 && b % 2 == 1
    ensures a * b % 2 == 1
  {
    var i, j := a / 2, b / 2;
    TwiceAndOne(i, b);
    assert a == 2 * i + 1 && b == 2 * j + 1;
    assert (2 * i + 1) * b == 2 * (i * b + j) + 1;
  }

  lemma TwiceAndOne(i: int, b: int)
    ensures (2 * i + 1) * b == 2 * (i * b) + b
  {}

  /** A dividend q*odd+t times the error of a rounded-up multiplier stays below the scale. */
  lemma ErrorBound(odd: nat, nc: nat, scale: nat, e: nat, q: nat, t: nat)
    requires IsLargestMultiple(odd, nc) && 0 < e && e * nc <= scale && q * odd + t < W && t < odd
    ensures e * (q * odd + t) + scale * t < scale * odd
  {
    var x := q * odd + t;
    if t == odd - 1 {
      LastResidue(odd, nc, q);
      MulMono(x, nc - 1, e);
      assert (nc - 1) * e == e * nc - e;
      assert scale * odd == scale * t + scale;
    } else {
      MulMono(x, nc + odd - 1, e);
      MulMono(odd, nc, e);
      assert (nc + odd - 1) * e == e * nc + odd * e - e;
      MulMono(t + 2, odd, scale);
      assert scale * (t + 2) == scale * t + 2 * scale;
    }
  }

  lemma LastResidue(odd: nat, nc: nat, q: nat)
    requires IsLargestMultiple(odd, nc) && q * odd + (odd - 1) < W
    ensures q * odd + odd <= nc
  {
    var k := nc / odd;
    assert nc == k * odd;
    assert (q + 1) * odd == q * odd + odd && (k + 1) * odd == nc + odd;
    MulCancel(q + 1, k + 1, odd);
    MulMono(q + 1, k, odd);
  }

  /** Multiplying by a rounded-up reciprocal and shifting is division, for every 32-bit dividend. */
  lemma RoundUpDivides(odd: nat, nc: nat, scale: nat, m: nat, x: nat)
    requires IsLargestMultiple(odd, nc) && 0 < scale && RoundsUp(odd, nc, scale, m) && x < W
    ensures m * x / scale == x / odd
  {
    var q, t := x / odd, x % odd;
    assert x == q * odd + t;
    ErrorBound(odd, nc, scale, m * odd - scale, q, t);
    RoundUpQuotient(odd, scale, m * odd - scale, m, q, t);
  }

  lemma RoundUpQuotient(odd: nat, scale: nat, e: nat, m: nat, q: nat, t: nat)
    requires m * odd == scale + e && 0 < scale && 0 < odd
    requires e * (q * odd + t) + scale * t < scale * odd
    ensures m * (q * odd + t) / scale == q
  {
    var rest := e * q + m * t;
    Distribute(m, q, odd, t);
    Distribute(scale, 0, 0, q); Distribute(q, 1, scale, e);
    assert m * (q * odd + t) == scale * q + rest;
    RestTimesOdd(odd, scale, e, m, q, t);
    MulCancel(rest, scale, odd);
    assert (q + 1) * scale == q * scale + scale;
    DivUnique(m * (q * odd + t), scale, q);
  }

  lemma Distribute(m: int, q: int, odd: int, t: int)
    ensures m * (q * odd + t) == q * (m * odd) + m * t
  {
    assert m * (q * odd + t) == m * (q * odd) + m * t;
    MulAssoc(m, q, odd); MulAssoc(q, m, odd);
  }

  lemma RestTimesOdd(odd: nat, scale: nat, e: nat, m: nat, q: nat, t: nat)
    requires m * odd == scale + e
    ensures (e * q + m * t) * odd == e * (q * odd + t) + scale * t
  {
    Distribute(e, q, odd, t);
    Distribute(odd, e, q, m * t);
    Distribute(t, 1, scale, e);
    MulAssoc(odd, m, t); MulAssoc(q, e, odd); MulAssoc(e, q, odd); MulAssoc(e, odd, q);
  }

  /** Multiplying the incremented dividend by a rounded-down reciprocal and shifting is division. */
  lemma RoundDownDivides(odd: nat, scale: nat, m: nat, x: nat)
    requires 1 < odd && RoundsDown(odd, scale, m) && x < W
    ensures m * (x + 1) / scale == x / odd
  {
    var q, t := x / odd, x % odd;
    assert x == q * odd + t;
    RoundDownQuotient(odd, scale, scale - m * odd, m, q, t);
  }

  lemma RoundDownQuotient(odd: nat, scale: nat, r: nat, m: nat, q: nat, t: nat)
    requires m * odd + r == scale && 0 < r && r * W <= scale && 1 < odd
    requires q * odd + t < W && t < odd
    ensures m * (q * odd + t + 1) / scale == q
  {
    var y := m * (t + 1);
    Distribute(m, q, odd, t + 1);
    Distribute(q, 1, m * odd, r);
    assert m * (q * odd + t + 1) == q * scale - q * r + y;
    MulMono(t + 1, odd, m);
    MulMono(1, t + 1, m);
    assert q * r <= m by { AccumulatedError(odd, scale, r, m, q); }
    assert (q + 1) * scale == q * scale + scale;
    assert 0 <= q * r;
    DivUnique(m * (q * odd + t + 1), scale, q);
  }

  /** The increment is worth at least the error accumulated over q subtractions. */
  lemma AccumulatedError(odd: nat, scale: nat, r: nat, m: nat, q: nat)
    requires m * odd + r == scale && 0 < odd && r * W <= scale && q * odd < W
    ensures q * r <= m
  {
    MulMono(q * odd + 1, W, r);
    Distribute(r, q, odd, 1);
    MulAssoc(q, r, odd);
    assert (m + 1) * odd == m * odd + odd;
    MulCancel(q * r, m + 1, odd);
  }
}
