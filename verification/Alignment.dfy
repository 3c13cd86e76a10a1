/** xbyak/xbyak.h: align() and nop(). What is put in front of an aligned position does nothing, for a decoder of NOP and of
    the multi-byte NOP 0F 1F /0 written from the Intel SDM, volume 2B, chapter 4. */
module Alignments {
  import opened AddressEncoder
  import opened Arith
  import opened Assembler
  import opened Bytes
  import opened Refinement
  import opened TwoPass

  const NO_EXTENSION := Extension(0, 0, 0, 0)

  /** How long the NOP is that bs starts with; 0 if it starts with something else. */
  function NopSize(bs: seq<u8>): nat {
    if |bs| == 0 then 0
    else if bs[0] == 0x66 then
      var n := NopSize(bs[1..]);
      if n == 0 then 0 else 1 + n
    else if bs[0] == 0x90 then 1
    else if |bs| > 2 && bs[0] == 0x0F && bs[1] == 0x1F then
      var p := DecodePlace(bs[2..], NO_EXTENSION, false, 1);
      if p.Some? && p.value.reg == 0 then 2 + p.value.size else 0
    else 0
  }

  /** NOPs of at most max bytes each, and nothing else. */
  predicate OnlyNops(bs: seq<u8>, max: nat) {
    bs == [] || (0 < NopSize(bs) <= |bs| && NopSize(bs) <= max && OnlyNops(bs[NopSize(bs)..], max))
  }

  lemma {:induction false} RowIsNop(len: nat, rest: seq<u8>)
    requires 1 <= len <= 15
    ensures NopSize(NopRow(len) + rest) == len
    decreases len
  {
    var bs := NopRow(len) + rest;
    if len > 8 {
      assert NopRow(len) == [0x66] + NopRow(len - 1);
      assert bs[1..] == NopRow(len - 1) + rest;
      RowIsNop(len - 1, rest);
    } else if len == 2 {
      assert bs[1..][0] == 0x90;
    } else if len == 6 {
      assert bs[1..] == [0x0F, 0x1F, 0x44, 0x00, 0x00] + rest;
      LongNop(bs[1..], 1, true, 1);
    } else if len >= 3 {
      LongNop(bs, if len < 4 then 0 else if len < 7 then 1 else 2, len == 5 || len == 8, if len < 4 then 0 else if len < 7 then 1 else 4);
    }
  }

  /** 0F 1F with a ModR/M byte, a SIB byte and a displacement of size bytes. */
  lemma LongNop(bs: seq<u8>, mod: int, sib: bool, size: nat)
    requires 0 <= mod < 3 && size == DispSize(mod) && |bs| >= 3 + (if sib then 1 else 0) + size && bs[0] == 0x0F && bs[1] == 0x1F
    requires bs[2] == 64 * mod + (if sib then 4 else 0) && (sib ==> bs[3] == 0)
    ensures NopSize(bs) == 3 + (if sib then 1 else 0) + size
  {
    hide Signed;
    var r := bs[2..];
    assert r[0] == bs[2] && (sib ==> r[1] == bs[3]);
  }

  /** nop(size): NOPs of the given number of bytes in all, of one byte each without multiByte, and of at most 9, or 15 for
      mode 2, with it. */
  lemma {:induction false} NopsAreNops(size: nat, multiByte: nat)
    ensures OnlyNops(Nops(size, multiByte), if multiByte == 0 then 1 else if multiByte == 2 then 15 else 9)
    decreases size
  {
    if size > 0 {
      var n := if multiByte == 2 then 15 else 9;
      var len := if multiByte == 0 then 1 else if size < n then size else n;
      assert NopRow(1) == [0x90];
      var rest := Nops(size - len, multiByte);
      assert Nops(size, multiByte) == NopRow(len) + rest;
      NopsAreNops(size - len, multiByte);
      RowIsNop(len, rest);
      assert (NopRow(len) + rest)[len..] == rest;
    }
  }

  /** align(x) puts less than x bytes of NOPs, of the requested kind, in front of a multiple of x: in the finished code of
      any session, in either kind of buffer. */
  lemma AlignedByNops(ops: seq<Op>, k: nat, base: nat, defaultNear: bool, buf: seq<u8>)
    requires Rendered(ops, base, defaultNear, buf) && k < |ops| && ops[k].Align?
    ensures var a, b := Layout(ops[..k], base, defaultNear), Layout(ops[..k + 1], base, defaultNear); var x := ops[k].x;
      && a.Some? && b.Some? && a.value.size <= b.value.size <= |buf|
      && x > 0 && b.value.size - a.value.size < x && (base + b.value.size) % x == 0
      && OnlyNops(buf[a.value.size..b.value.size], if ops[k].multiByte == 0 then 1 else if ops[k].multiByte == 2 then 15 else 9)
  {
    hide Layout, Rendered, Render, OnlyNops;
    EveryCallIsDone(base, defaultNear, ops, buf, k);
    CallSlice(base, defaultNear, ops, buf, k);
    var a := Layout(ops[..k], base, defaultNear).value;
    NopsAreNops(Padding(base + a.size, ops[k].x), ops[k].multiByte);
    hide PowerOfTwo, Nops, Padding;
    AlignIs(a, ops[k], base, defaultNear);
    assert buf[a.size..a.size] == [];
    NothingIsNops(if ops[k].multiByte == 0 then 1 else if ops[k].multiByte == 2 then 15 else 9);
  }

  lemma NothingIsNops(max: nat)
    ensures OnlyNops([], max)
  {}

  lemma AlignIs(a: Plan, op: Op, base: nat, defaultNear: bool)
    requires op.Align? && TwoPass.Place(a, op, base, defaultNear).Some?
    ensures op.x > 0
    ensures TwoPass.Place(a, op, base, defaultNear) == Some(a.Add(Raw(Nops(Padding(base + a.size, op.x), op.multiByte))))
  {
    hide PowerOfTwo, Nops, Padding;
  }

  /** The test for a power of two. */
  lemma {:induction false} PowerOfTwoMeans(x: nat)
    ensures PowerOfTwo(x) <==> exists n: nat :: x == Pow2(n)
    decreases x
  {
    if x == 1 {
      assert Pow2(0) == 1;
    } else if x > 0 && x % 2 == 0 {
      PowerOfTwoMeans(x / 2);
      if n: nat :| x / 2 == Pow2(n) { assert x == Pow2(n + 1); }
      if n: nat :| x == Pow2(n) { assert x / 2 == Pow2(n - 1); }
    } else {
      forall n: nat ensures x != Pow2(n) { assert n > 0 ==> Pow2(n) == 2 * Pow2(n - 1); }
    }
  }
}
