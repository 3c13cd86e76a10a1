/** Options, and numbers as little-endian bytes. */
module Bytes {
  datatype Option<+T> = None | Some(value: T) {
    predicate IsFailure() { None? }
    function PropagateFailure<U>(): Option<U> requires None? { None }
    function Extract(): T requires Some? { value }
  }

  type u8 = x: int | 0 <= x < 0x100

  /** The low n bytes of v in two's complement, least significant first. */
  function LE(v: int, n: nat): (bs: seq<u8>)
    ensures |bs| == n
    decreases n
  {
    if n == 0 then [] else [v % 0x100] + LE(v / 0x100, n - 1)
  }

  function Range(n: nat): (m: nat)
    ensures m >= 1
  {
    if n == 0 then 1 else 0x100 * Range(n - 1)
  }

  function Unsigned(bs: seq<u8>): (v: nat)
    ensures v < Range(|bs|)
  {
    if bs == [] then 0 else bs[0] + 0x100 * Unsigned(bs[1..])
  }

  function Signed(bs: seq<u8>): int {
    var u := Unsigned(bs);
    if 2 * u < Range(|bs|) then u else u - Range(|bs|)
  }

  predicate FitsSigned(v: int, n: nat) {
    0 <= 2 * v + Range(n) && 2 * v < Range(n)
  }

  lemma {:induction false} UnsignedLE(v: int, n: nat)
    requires 0 <= v < Range(n)
    ensures Unsigned(LE(v, n)) == v
  {
    if n > 0 {
      UnsignedLE(v / 0x100, n - 1);
      assert LE(v, n)[1..] == LE(v / 0x100, n - 1);
    }
  }

  lemma {:induction false} LEWraps(v: int, n: nat)
    ensures LE(v, n) == LE(v + Range(n), n)
    decreases n
  {
    if n > 0 {
      LEWraps(v / 0x100, n - 1);
      assert (v + 0x100 * Range(n - 1)) / 0x100 == v / 0x100 + Range(n - 1);
    }
  }

  /** A value in range reads back with its sign. */
  lemma SignedLE(v: int, n: nat)
    requires FitsSigned(v, n)
    ensures Signed(LE(v, n)) == v
  {
    if v >= 0 { UnsignedLE(v, n); }
    else { LEWraps(v, n); UnsignedLE(v + Range(n), n); }
  }

  lemma RangeIs()
    ensures Range(1) == 0x100 && Range(4) == 0x1_0000_0000
  {
    assert Range(2) == 0x1_0000;
    assert Range(3) == 0x100_0000;
  }
}
