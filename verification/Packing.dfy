/** An array of small numbers packed into one integer, each in b bits: get_a and set_a of xbyak/xbyak_util.h. */
module Packing {
  import opened Arith

  /** a >> n, a & ((1 << n) - 1) and a << n. */
  function Shr(a: nat, n: nat): nat { Ratio(a, Pow2(n)) }

  function Ratio(a: nat, d: nat): nat
    requires d > 0
  {
    a / d
  }

  function Low(a: nat, n: nat): (v: nat)
    ensures v < Pow2(n)
  {
    a % Pow2(n)
  }

  function Shl(a: nat, n: nat): nat { a * Pow2(n) }

  /** 1 << (i * b) */
  function Weight(b: nat, i: nat): (w: nat)
    ensures w >= 1
  {
    Pow2(i * b)
  }

  function GetSlot(b: nat, a: nat, i: nat): (v: nat)
    ensures v < Pow2(b)
  {
    Low(Shr(a, i * b), b)
  }

  /** a & ~(mask << (i * b)) | v << (i * b), for v within the mask. */
  function SetSlot(b: nat, a: nat, i: nat, v: nat): int {
    a - Shl(GetSlot(b, a, i), i * b) + Shl(v, i * b)
  }

  /** The first k slots of a. */
  function Slots(b: nat, a: nat, k: nat): (s: seq<nat>)
    ensures |s| == k
    decreases k
  {
    if k == 0 then [] else [Low(a, b)] + Slots(b, Shr(a, b), k - 1)
  }

  lemma WeightStep(b: nat, i: nat)
    requires i > 0
    ensures Weight(b, i) == Pow2(b) * Weight(b, i - 1)
  {
    hide Pow2;
    MulStep(i, b);
    PowerStep(b, (i - 1) * b, i * b, Weight(b, i), Weight(b, i - 1));
  }

  lemma PowerStep(b: nat, n: nat, m: nat, w: nat, v: nat)
    requires m == b + n && w == Pow2(m) && v == Pow2(n)
    ensures w == Pow2(b) * v
  {
    Pow2Add(b, n);
    hide Pow2;
  }

  lemma MulStep(i: int, b: int)
    ensures i * b == b + (i - 1) * b
  {}

  lemma WeightFirst(b: nat)
    ensures Weight(b, 0) == 1
  {
    assert 0 * b == 0;
  }

  lemma ShrShr(a: nat, m: nat, n: nat)
    ensures Shr(Shr(a, m), n) == Shr(a, m + n)
  {
    hide Pow2;
    Pow2Add(m, n);
    DivDiv(a, Pow2(m), Pow2(n));
  }

  lemma Split(a: nat, n: nat)
    ensures a == Low(a, n) + Pow2(n) * Shr(a, n)
  {
    hide Pow2;
  }

  lemma Unsplit(r: nat, q: nat, n: nat)
    requires r < Pow2(n)
    ensures Low(r + Pow2(n) * q, n) == r && Shr(r + Pow2(n) * q, n) == q
  {
    hide Pow2;
    SplitBase(Pow2(n), q, r);
  }

  lemma GetStep(b: nat, a: nat, i: nat)
    requires i > 0
    ensures GetSlot(b, a, i) == GetSlot(b, Shr(a, b), i - 1)
  {
    hide Pow2, Shr, Low;
    MulStep(i, b);
    ShrShr(a, b, (i - 1) * b);
  }

  lemma GetFirst(b: nat, a: nat)
    ensures GetSlot(b, a, 0) == Low(a, b)
  {
    assert 0 * b == 0;
    assert Shr(a, 0) == a;
  }

  lemma {:induction false} GetIs(b: nat, a: nat, k: nat, i: nat)
    requires i < k
    ensures GetSlot(b, a, i) == Slots(b, a, k)[i]
    decreases k
  {
    hide Pow2, GetSlot, Shr, Low;
    if i == 0 { GetFirst(b, a); }
    else {
      GetStep(b, a, i);
      GetIs(b, Shr(a, b), k - 1, i - 1);
    }
  }

  lemma SplitBase(B: nat, q: int, r: int)
    requires 0 <= r < B
    ensures (r + B * q) / B == q && (r + B * q) % B == r
  {
    DivUnique(r + B * q, B, q);
    assert r + B * q == (r + B * q) / B * B + (r + B * q) % B;
  }

  lemma SetArith(B: int, r: int, q: int, g: int, p: int, v: int)
    ensures r + B * q - g * (B * p) + v * (B * p) == r + B * (q - g * p + v * p)
  {
    assert g * (B * p) == B * (g * p) by { MulAssoc(g, B, p); MulAssoc(B, g, p); }
    assert v * (B * p) == B * (v * p) by { MulAssoc(v, B, p); MulAssoc(B, v, p); }
  }

  lemma ShlIs(v: nat, b: nat, i: nat)
    requires i > 0
    ensures Shl(v, i * b) == Weight(b, i) * v && Weight(b, i) == Pow2(b) * Weight(b, i - 1)
    ensures Shl(v, (i - 1) * b) == v * Weight(b, i - 1)
  {
    hide Pow2;
    WeightStep(b, i);
  }

  lemma SetStep(b: nat, a: nat, i: nat, v: nat)
    requires i > 0
    ensures SetSlot(b, a, i, v) == Low(a, b) + Pow2(b) * SetSlot(b, Shr(a, b), i - 1, v)
  {
    hide Pow2, Weight, GetSlot, Shr, Low, Shl;
    var B, p, q, r := Pow2(b), Weight(b, i - 1), Shr(a, b), Low(a, b);
    var g := GetSlot(b, a, i);
    GetStep(b, a, i);
    ShlIs(g, b, i);
    ShlIs(v, b, i);
    Split(a, b);
    SetArith(B, r, q, g, p, v);
  }

  lemma SetFirst(b: nat, a: nat, v: nat)
    ensures SetSlot(b, a, 0, v) == v + Pow2(b) * Shr(a, b)
  {
    assert 0 * b == 0;
    assert forall x: nat :: Shl(x, 0) == x;
    hide Pow2, GetSlot, Shr, Low, Shl;
    GetFirst(b, a);
    Split(a, b);
  }

  lemma Below(B: nat, r: nat, q: nat, w: nat)
    requires r < B
    ensures r + B * q < B * w <==> q < w
  {
    if q < w { MulMono(q + 1, w, B); } else { MulMono(w, q, B); }
  }

  lemma SlotsOf(b: nat, q: nat, r: nat, k: nat)
    requires k > 0 && r < Pow2(b)
    ensures Slots(b, r + Pow2(b) * q, k) == [r] + Slots(b, q, k - 1)
    ensures r + Pow2(b) * q < Weight(b, k) <==> q < Weight(b, k - 1)
  {
    hide Pow2, Weight, Shr, Low;
    Unsplit(r, q, b);
    WeightStep(b, k);
    Below(Pow2(b), r, q, Weight(b, k - 1));
  }

  /** set_a changes its slot and no other, and keeps the number within k slots. */
  lemma {:induction false} SetIs(b: nat, a: nat, k: nat, i: nat, v: nat)
    requires i < k && v < Pow2(b)
    ensures SetSlot(b, a, i, v) >= 0
    ensures Slots(b, SetSlot(b, a, i, v), k) == Slots(b, a, k)[i := v]
    ensures a < Weight(b, k) ==> SetSlot(b, a, i, v) < Weight(b, k)
    decreases k
  {
    hide Pow2, Weight, SetSlot, Shr, Low;
    var q, r := Shr(a, b), Low(a, b);
    Split(a, b);
    SlotsOf(b, q, r, k);
    if i == 0 {
      SetFirst(b, a, v);
      SlotsOf(b, q, v, k);
    } else {
      SetStep(b, a, i, v);
      SetIs(b, q, k - 1, i - 1, v);
      SlotsOf(b, SetSlot(b, q, i - 1, v), r, k);
    }
  }

  /** The slots determine the number. */
  lemma {:induction false} SlotsDetermine(b: nat, a: nat, c: nat, k: nat)
    requires a < Weight(b, k) && c < Weight(b, k) && Slots(b, a, k) == Slots(b, c, k)
    ensures a == c
    decreases k
  {
    hide Pow2, Weight, Shr, Low;
    if k > 0 {
      var q, r, q', r' := Shr(a, b), Low(a, b), Shr(c, b), Low(c, b);
      Split(a, b);
      Split(c, b);
      hide Slots;
      SlotsOf(b, q, r, k);
      SlotsOf(b, q', r', k);
      assert ([r] + Slots(b, q, k - 1))[0] == r && ([r'] + Slots(b, q', k - 1))[0] == r';
      assert ([r] + Slots(b, q, k - 1))[1..] == Slots(b, q, k - 1) && ([r'] + Slots(b, q', k - 1))[1..] == Slots(b, q', k - 1);
      SlotsDetermine(b, q, q', k - 1);
    } else {
      WeightFirst(b);
    }
  }

  lemma {:induction false} SlotsOfZero(b: nat, k: nat)
    ensures Slots(b, 0, k) == seq(k, _ => 0) && 0 < Weight(b, k)
    decreases k
  {
    hide Pow2;
    assert Shr(0, b) == 0 && Low(0, b) == 0;
    if k > 0 { SlotsOfZero(b, k - 1); }
  }

  /** A number that fits one slot. */
  lemma SlotsOfSmall(b: nat, v: nat, k: nat)
    requires k > 0 && v < Pow2(b)
    ensures Slots(b, v, k) == [v] + seq(k - 1, _ => 0) && v < Weight(b, k)
  {
    hide Pow2, Weight, Slots;
    SlotsOfZero(b, k - 1);
    SlotsOf(b, 0, v, k);
    assert Pow2(b) * 0 == 0;
  }

  /** The number 1 << b, which marks the empty mask. */
  lemma SlotsOfMark(b: nat, k: nat)
    requires k > 1 && b > 0
    ensures Slots(b, Pow2(b), k) == [0, 1] + seq(k - 2, _ => 0) && Pow2(b) < Weight(b, k)
  {
    assert Pow2(1) == 2;
    Pow2Mono(1, b);
    hide Pow2, Weight;
    SlotsOfSmall(b, 1, k - 1);
    SlotsOf(b, 1, 0, k);
    assert [0] + ([1] + seq(k - 2, _ => 0)) == [0, 1] + seq(k - 2, _ => 0);
  }

  lemma {:induction false} SlotsBound(b: nat, a: nat, k: nat)
    ensures forall i :: 0 <= i < k ==> Slots(b, a, k)[i] < Pow2(b)
    decreases k
  {
    hide Pow2, Shr, Low;
    if k > 0 { SlotsBound(b, Shr(a, b), k - 1); }
  }
}
