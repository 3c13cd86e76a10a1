/** Powers of two and the few facts about products and quotients that the solver needs to be told. */
module Arith {
  const W: nat := 0x1_0000_0000

  function Pow2(n: nat): (p: nat)
    ensures p >= 1
  {
    if n == 0 then 1 else 2 * Pow2(n - 1)
  }

  lemma {:induction false} Pow2Add(a: nat, b: nat)
    ensures Pow2(a + b) == Pow2(a) * Pow2(b)
  {
    if a > 0 { Pow2Add(a - 1, b); MulAssoc(2, Pow2(a - 1), Pow2(b)); }
  }

  lemma {:induction false} Pow2Mono(a: nat, b: nat)
    requires a <= b
    ensures Pow2(a) <= Pow2(b)
  {
    if a < b { Pow2Mono(a, b - 1); }
  }

  lemma Pow2Is()
    ensures Pow2(8) == 0x100 && Pow2(16) == 0x1_0000 && Pow2(30) == 0x4000_0000
    ensures Pow2(31) == 0x8000_0000 && Pow2(32) == W
  {
    assert Pow2(5) == 32;
    Pow2Add(5, 3); Pow2Add(8, 8); Pow2Add(16, 8); Pow2Add(24, 5); Pow2Add(29, 1); Pow2Add(30, 1); Pow2Add(16, 16);
    assert Pow2(1) == 2 && Pow2(3) == 8;
  }

  lemma MulMono(a: int, b: int, c: int)
    requires a <= b && 0 <= c
    ensures a * c <= b * c
  {}

  lemma MulAssoc(a: int, b: int, c: int)
    ensures a * (b * c) == (a * b) * c
  {}

  lemma MulCancel(a: int, b: int, c: int)
    requires a * c < b * c && 0 < c
    ensures a < b
  {
    if b <= a { MulMono(b, a, c); }
  }

  /** The quotient is the only q whose multiple of d is the last one not above n. */
  lemma DivUnique(n: int, d: int, q: int)
    requires 0 < d && q * d <= n < (q + 1) * d
    ensures n / d == q
  {
    var r := n - q * d;
    assert n == n / d * d + n % d;
    if n / d < q { MulMono(n / d + 1, q, d); }
    if n / d > q { MulMono(q + 1, n / d, d); }
  }

  lemma DivBounds(n: int, d: int)
    requires 0 < d
    ensures n / d * d <= n < (n / d + 1) * d
  {
    assert n == n / d * d + n % d;
  }

  lemma DivDiv(n: nat, a: nat, b: nat)
    requires 0 < a && 0 < b
    ensures 0 < a * b && n / a / b == n / (a * b)
  {
    var q := n / a / b;
    MulMono(1, a, b);
    DivBounds(n / a, b);
    DivBounds(n, a);
    MulMono(q * b, n / a, a);
    MulMono(n / a + 1, (q + 1) * b, a);
    assert q * (a * b) == q * b * a by { MulAssoc(q, b, a); assert a * b == b * a; }
    assert (q + 1) * (a * b) == (q + 1) * b * a by { MulAssoc(q + 1, b, a); assert a * b == b * a; }
    DivUnique(n, a * b, q);
  }
}
