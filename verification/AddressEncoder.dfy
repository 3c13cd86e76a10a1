/** xbyak/xbyak.h: opAddr and setSIB in 64-bit mode, against a decoder written from the Intel SDM, volume 2A,
    sections 2.1.5, 2.2.1.2 to 2.2.1.6 and 2.7.5. */
module AddressEncoder {
  import Arith
  import opened Bytes
  import opened RegExps

  const EBP := 5
  const W32: int := 0x1_0000_0000

  function ModRM(mod: int, r1: int, r2: int): (b: u8)
    requires 0 <= mod < 4
    ensures b / 64 == mod && b / 8 % 8 == r1 % 8 && b % 8 == r2 % 8
  {
    mod * 64 + r1 % 8 * 8 + r2 % 8
  }

  predicate InDisp8(x: int) {
    0xFFFF_FF80 <= x || x <= 0x7F
  }

  /** The division of C, towards zero. */
  function Quotient(a: int, n: int): int
    requires n > 0
  {
    if a >= 0 then a / n else 0 - (0 - a) / n
  }

  function ToInt(x: int): int {
    if x < 0x8000_0000 then x else x - W32
  }

  /** The mod field and the displacement that is written with it. */
  function ModDisp(base: Reg, disp: int, disp8N: nat): (r: (int, int))
    requires 0 <= disp < W32
    ensures 0 <= r.0 < 3
  {
    if base.bit == 0 || (base.idx % 8 != EBP && disp == 0) then (0, disp)
    else if disp8N == 0 then if InDisp8(disp) then (1, disp) else (2, disp)
    else
      var t := Quotient(ToInt(disp), disp8N) % W32;
      if disp % disp8N == 0 && InDisp8(t) then (1, t) else (2, disp)
  }

  predicate HasSIB(e: RegExp) {
    e.index.bit != 0 || e.base.idx % 8 == ESP || (e.base.bit == 0 && e.index.bit == 0)
  }

  function SS(scale: int): (s: int)
    ensures 0 <= s < 4
  {
    if scale == 8 then 3 else if scale == 4 then 2 else if scale == 2 then 1 else 0
  }

  function Head(e: RegExp, reg: int, mod: int): seq<u8>
    requires 0 <= mod < 3
  {
    var base := if e.base.bit != 0 then e.base.idx % 8 else EBP;
    if HasSIB(e) then [ModRM(mod, reg, ESP), ModRM(SS(e.scale), if e.index.bit != 0 then e.index.idx % 8 else ESP, base)]
    else [ModRM(mod, reg, base)]
  }

  function Tail(e: RegExp, mod: int, disp: int): seq<u8> {
    if mod == 1 then LE(disp, 1) else if mod == 2 || e.base.bit == 0 then LE(disp, 4) else []
  }

  predicate DispFits(disp: int) {
    disp / 0x8000_0000 == 0 || disp / 0x8000_0000 == 0x1_FFFF_FFFF
  }

  /** setSIB for an address without a label; None is ERR_OFFSET_IS_TOO_BIG. */
  function EncodeSIB(e: RegExp, reg: int, disp8N: nat): Option<seq<u8>> {
    if !DispFits(e.disp) then None
    else
      var m := ModDisp(e.base, e.disp % W32, disp8N);
      Some(Head(e, reg, m.0) + Tail(e, m.0, m.1))
  }

  /** A memory operand as the processor sees it. reg is the other field of ModR/M, size the bytes used. */
  datatype Place = Place(base: Option<int>, index: Option<int>, scale: int, disp: int, relative: bool, reg: int, size: nat)

  /** The register extension bits of the prefix: B3, B4, X3 and X4, or V' for a vector index. */
  datatype Extension = Extension(b3: int, b4: int, x3: int, x4: int)

  /** Table 2-2 and 2-3 of volume 2A with their footnotes, register numbers extended to five bits; disp8 is scaled
      by n. None: not a memory operand, or bytes are missing. */
  function DecodePlace(bs: seq<u8>, x: Extension, vector: bool, n: nat): Option<Place> {
    if |bs| == 0 then None
    else
      var mod, reg, rm := bs[0] / 64, bs[0] / 8 % 8, bs[0] % 8;
      if mod == 3 then None
      else if rm == 4 then
        if |bs| == 1 then None
        else
          var ss, index, base := bs[1] / 64, bs[1] / 8 % 8 + 8 * x.x3 + 16 * x.x4, bs[1] % 8;
          var i := if index == 4 && !vector then None else Some(index);
          var scale := if i.None? then 1 else ScaleOf(ss);
          if base == 5 && mod == 0 then WithDisp(Place(None, i, scale, 0, false, reg, 2), bs, 4, 1)
          else WithDisp(Place(Some(base + 8 * x.b3 + 16 * x.b4), i, scale, 0, false, reg, 2), bs, DispSize(mod), n)
      else if rm == 5 && mod == 0 then WithDisp(Place(None, None, 1, 0, true, reg, 1), bs, 4, 1)
      else WithDisp(Place(Some(rm + 8 * x.b3 + 16 * x.b4), None, 1, 0, false, reg, 1), bs, DispSize(mod), n)
  }

  function ScaleOf(ss: int): int {
    if ss == 0 then 1 else if ss == 1 then 2 else if ss == 2 then 4 else 8
  }

  function DispSize(mod: int): nat {
    if mod == 1 then 1 else if mod == 2 then 4 else 0
  }

  function WithDisp(p: Place, bs: seq<u8>, size: nat, n: nat): Option<Place> {
    if |bs| < p.size + size then None
    else if size == 0 then Some(p)
    else
      var d := Signed(bs[p.size..p.size + size]);
      Some(p.(disp := if size == 1 then d * n else d, size := p.size + size))
  }

  /** The extension bits the prefixes carry for an operand. */
  function ExtensionOf(e: RegExp): Extension {
    Extension(e.base.idx / 8 % 2, e.base.idx / 16 % 2, e.index.idx / 8 % 2, e.index.idx / 16 % 2)
  }

  /** What Build and verify() leave. */
  predicate Encodable(e: RegExp) {
    && (e.base == NONE || General(e.base))
    && (e.index == NONE || ((General(e.index) || Vector(e.index)) && e.scale in {1, 2, 4, 8}))
    && Verified(e) && 0 <= e.disp < W64 && (e.rip ==> e.base == NONE && e.index == NONE)
  }

  function SignedDisp(d: int): int {
    if 2 * d < W64 then d else d - W64
  }

  /** The factor a disp8 is scaled by: a legacy or VEX instruction has none. */
  function Factor(disp8N: nat): nat {
    if disp8N == 0 then 1 else disp8N
  }

  /** What decoding must give back. */
  function PlaceOf(e: RegExp, reg: int, size: nat): Place {
    Place(if e.base.bit == 0 then None else Some(e.base.idx), if e.index.bit == 0 then None else Some(e.index.idx),
          if e.index.bit == 0 then 1 else e.scale, SignedDisp(e.disp), false, reg % 8, size)
  }

  lemma DispFitsMeans(d: int)
    requires 0 <= d < W64
    ensures DispFits(d) <==> FitsSigned(SignedDisp(d), 4)
    ensures DispFits(d) ==> ToInt(d % W32) == SignedDisp(d)
  {
    hide Range;
    RangeIs();
    if d >= W64 - 0x8000_0000 {
      Arith.DivUnique(d, 0x8000_0000, 0x1_FFFF_FFFF);
      assert d == (d - 0xFFFF_FFFF * W32) + 0xFFFF_FFFF * W32;
      assert d % W32 == d - 0xFFFF_FFFF * W32;
    } else if d < 0x8000_0000 {
      assert d % W32 == d && d / 0x8000_0000 == 0;
    } else {
      Arith.DivBounds(d, 0x8000_0000);
    }
  }

  /** A written displacement reads back as the one that was asked for. */
  lemma TailReads(e: RegExp, disp8N: nat)
    requires 0 <= e.disp < W64 && DispFits(e.disp) && (disp8N == 0 || W32 % disp8N == 0)
    ensures var m := ModDisp(e.base, e.disp % W32, disp8N); var tail := Tail(e, m.0, m.1);
      && (m.0 == 1 ==> Signed(tail) * Factor(disp8N) == SignedDisp(e.disp))
      && (m.0 == 2 || e.base.bit == 0 ==> |tail| == 4 && Signed(tail) == SignedDisp(e.disp))
      && (m.0 == 0 && e.base.bit != 0 ==> SignedDisp(e.disp) == 0 && tail == [])
  {
    var d := e.disp % W32;
    var m := ModDisp(e.base, d, disp8N);
    DispFitsMeans(e.disp);
    RangeIs();
    if m.0 == 2 || e.base.bit == 0 {
      Reads(d, 4);
    } else if m.0 == 1 {
      if disp8N == 0 { Reads8(d); }
      else {
        Reads8(m.1);
        Divides(d, disp8N);
      }
    }
  }

  lemma Reads(d: int, n: nat)
    requires 0 <= d < W32 && n == 4
    ensures Signed(LE(d, n)) == ToInt(d)
  {
    RangeIs();
    if d >= 0x8000_0000 { LEWraps(d - W32, 4); }
    SignedLE(ToInt(d), 4);
  }

  lemma Reads8(d: int)
    requires 0 <= d < W32 && InDisp8(d)
    ensures Signed(LE(d, 1)) == ToInt(d)
  {
    RangeIs();
    assert LE(d, 1) == LE(ToInt(d), 1) by {
      assert d % 0x100 == ToInt(d) % 0x100;
      assert LE(d, 1) == [d % 0x100] + LE(d / 0x100, 0);
      assert LE(ToInt(d), 1) == [ToInt(d) % 0x100] + LE(ToInt(d) / 0x100, 0);
    }
    SignedLE(ToInt(d), 1);
  }

  /** When disp is a multiple of a factor of 2^32, the truncated quotient is exact, for negative ones too. */
  lemma Divides(d: int, n: nat)
    requires 0 <= d < W32 && n > 0 && W32 % n == 0 && d % n == 0
    ensures ToInt(Quotient(ToInt(d), n) % W32) * n == ToInt(d)
  {
    var a := ToInt(d);
    var q := Quotient(a, n);
    if a >= 0 {
      assert a == q * n + a % n;
      assert 0 <= q <= a by { Smaller(q, n, a); }
    } else {
      var k := W32 / n;
      assert W32 == k * n;
      assert d == d / n * n;
      assert 0 - a == (k - d / n) * n;
      Exact(k - d / n, n, 0 - a);
      assert 0 - a == 0 - q * n;
      Smaller(0 - q, n, 0 - a);
      assert q % W32 == if q == 0 then 0 else q + W32;
    }
  }

  lemma Smaller(q: int, n: nat, a: int)
    requires n > 0 && q * n == a && a >= 0
    ensures 0 <= q <= a
  {}

  lemma Exact(q: int, n: nat, a: int)
    requires n > 0 && a == q * n
    ensures a / n == q
  {
    Arith.DivUnique(a, n, q);
  }

  lemma SplitIdx(i: int)
    requires 0 <= i < 32
    ensures i == i % 8 + 8 * (i / 8 % 2) + 16 * (i / 16 % 2)
    ensures i / 8 % 2 < 2 && i / 16 % 2 < 2
  {}

  /** The displacement a decoder with factor n reads: a compressed one is scaled by n. */
  function ReadDisp(e: RegExp, disp8N: nat, n: nat): int {
    if ModDisp(e.base, e.disp % W32, disp8N).0 == 1 then SignedDisp(e.disp) / Factor(disp8N) * n else SignedDisp(e.disp)
  }

  /** It is the one that was meant exactly if the factors agree or nothing was compressed. */
  lemma ReadDispIs(e: RegExp, disp8N: nat, n: nat)
    requires 0 <= e.disp < W64 && DispFits(e.disp) && (disp8N == 0 || W32 % disp8N == 0)
    ensures ReadDisp(e, disp8N, n) == SignedDisp(e.disp)
        <==> n == Factor(disp8N) || e.disp == 0 || ModDisp(e.base, e.disp % W32, disp8N).0 != 1
  {
    var m := ModDisp(e.base, e.disp % W32, disp8N);
    if m.0 == 1 {
      TailReads(e, disp8N);
      var t := Signed(Tail(e, m.0, m.1));
      Exact(t, Factor(disp8N), SignedDisp(e.disp));
      if t * n == t * Factor(disp8N) && t != 0 { SameFactor(t, n, Factor(disp8N)); }
    }
  }

  lemma SameFactor(t: int, a: int, b: int)
    requires t != 0 && t * a == t * b
    ensures a == b
  {
    assert t * (a - b) == 0;
  }

  /** setSIB round trip: an operand is refused exactly when its displacement does not fit 32 signed bits, and the
      bytes of any other one decode to the same base, index, scale and displacement, with the register of the
      other operand, whatever follows them in the instruction. */
  lemma SIBDecodes(e: RegExp, reg: int, disp8N: nat, rest: seq<u8>)
    requires Encodable(e) && (disp8N == 0 || W32 % disp8N == 0)
    ensures EncodeSIB(e, reg, disp8N).Some? <==> FitsSigned(SignedDisp(e.disp), 4)
    ensures EncodeSIB(e, reg, disp8N).Some? ==>
      var bs := EncodeSIB(e, reg, disp8N).value;
      DecodePlace(bs + rest, ExtensionOf(e), Vector(e.index), Factor(disp8N)) == Some(PlaceOf(e, reg, |bs|))
  {
    DispFitsMeans(e.disp);
    if EncodeSIB(e, reg, disp8N).Some? {
      SIBDecodesAs(e, reg, disp8N, rest, Factor(disp8N));
      ReadDispIs(e, disp8N, Factor(disp8N));
    }
  }

  /** disp8N 1 is a divisor like any other: [rax + 8] gets one byte of displacement, not four. */
  lemma OneDoesNotForceDisp32()
    ensures EncodeSIB(RegExp(Reg(0, 64), NONE, 1, 8, None, false, false), 0, 1) == Some([0x40, 8])
  {
    var e := RegExp(Reg(0, 64), NONE, 1, 8, None, false, false);
    assert ModDisp(e.base, 8, 1) == (1, 8);
    assert Head(e, 0, 1) == [ModRM(1, 0, 0)] == [0x40];
    assert LE(8, 1) == [8] + LE(0, 0) == [8];
    assert Tail(e, 1, 8) == [8];
    assert DispFits(8) && e.disp % W32 == 8;
    hide ModDisp, Head, Tail;
    assert [0x40] + [8] == [0x40, 8];
    assert EncodeSIB(e, 0, 1) == Some([0x40] + [8]);
  }

  /** The same for a decoder with another factor. */
  lemma SIBDecodesAs(e: RegExp, reg: int, disp8N: nat, rest: seq<u8>, n: nat)
    requires Encodable(e) && (disp8N == 0 || W32 % disp8N == 0) && EncodeSIB(e, reg, disp8N).Some?
    ensures var bs := EncodeSIB(e, reg, disp8N).value;
      DecodePlace(bs + rest, ExtensionOf(e), Vector(e.index), n)
      == Some(PlaceOf(e, reg, |bs|).(disp := ReadDisp(e, disp8N, n)))
  {
    DispFitsMeans(e.disp);
    if EncodeSIB(e, reg, disp8N).Some? {
      var m := ModDisp(e.base, e.disp % W32, disp8N);
      var head, tail := Head(e, reg, m.0), Tail(e, m.0, m.1);
      var bs := head + tail;
      TailReads(e, disp8N);
      if m.0 == 1 { Exact(Signed(tail), Factor(disp8N), SignedDisp(e.disp)); }
      SplitIdx(e.base.idx);
      SplitIdx(e.index.idx);
      assert (bs + rest)[0] == head[0];
      assert HasSIB(e) ==> (bs + rest)[1] == head[1];
      assert (bs + rest)[|head|..|head| + |tail|] == tail;
      NoBaseIsMod0(e, disp8N);
      if HasSIB(e) { DecodeSIB(e, reg, disp8N, bs + rest, n); }
      else { DecodeDirect(e, reg, disp8N, bs + rest, n); }
    }
  }

  lemma NoBaseIsMod0(e: RegExp, disp8N: nat)
    ensures var m := ModDisp(e.base, e.disp % W32, disp8N).0; m == 0 ==> e.base.bit == 0 || e.base.idx % 8 != EBP
    ensures e.base.bit == 0 ==> ModDisp(e.base, e.disp % W32, disp8N).0 == 0
  {}

  ghost predicate Written(e: RegExp, reg: int, disp8N: nat, bs: seq<u8>) {
    var m := ModDisp(e.base, e.disp % W32, disp8N);
    var head, tail := Head(e, reg, m.0), Tail(e, m.0, m.1);
    && |bs| >= |head| + |tail| && bs[0] == head[0] && (HasSIB(e) ==> bs[1] == head[1])
    && bs[|head|..|head| + |tail|] == tail
    && (m.0 == 1 ==> Signed(tail) == SignedDisp(e.disp) / Factor(disp8N))
    && (m.0 == 2 || e.base.bit == 0 ==> |tail| == 4 && Signed(tail) == SignedDisp(e.disp))
    && (m.0 == 0 && e.base.bit != 0 ==> SignedDisp(e.disp) == 0 && tail == [])
    && (m.0 == 0 ==> e.base.bit == 0 || e.base.idx % 8 != EBP)
    && (e.base.bit == 0 ==> m.0 == 0)
  }

  lemma DecodeSIB(e: RegExp, reg: int, disp8N: nat, bs: seq<u8>, n: nat)
    requires Encodable(e) && HasSIB(e) && Written(e, reg, disp8N, bs)
    requires e.base.idx == e.base.idx % 8 + 8 * (e.base.idx / 8 % 2) + 16 * (e.base.idx / 16 % 2)
    requires e.index.idx == e.index.idx % 8 + 8 * (e.index.idx / 8 % 2) + 16 * (e.index.idx / 16 % 2)
    ensures var m := ModDisp(e.base, e.disp % W32, disp8N);
      DecodePlace(bs, ExtensionOf(e), Vector(e.index), n)
      == Some(PlaceOf(e, reg, |Head(e, reg, m.0)| + |Tail(e, m.0, m.1)|).(disp := ReadDisp(e, disp8N, n)))
  {
    hide ModDisp, Signed, SignedDisp, LE, ModRM, Factor;
    var m := ModDisp(e.base, e.disp % W32, disp8N);
    var tail, x, vector := Tail(e, m.0, m.1), ExtensionOf(e), Vector(e.index);
    var low := if e.base.bit != 0 then e.base.idx % 8 else EBP;
    var field := if e.index.bit != 0 then e.index.idx % 8 else ESP;
    assert Head(e, reg, m.0) == [ModRM(m.0, reg, ESP), ModRM(SS(e.scale), field, low)];
    assert bs[0] / 64 == m.0 && bs[0] / 8 % 8 == reg % 8 && bs[0] % 8 == ESP;
    assert bs[1] / 64 == SS(e.scale) && bs[1] / 8 % 8 == field && bs[1] % 8 == low;
    var want := PlaceOf(e, reg, 2);
    var i := field + 8 * x.x3 + 16 * x.x4;
    assert want.index == if i == 4 && !vector then None else Some(i);
    ghost var p := want.(disp := 0);
    assert e.index.bit != 0 ==> ScaleOf(SS(e.scale)) == e.scale;
    assert bs[2..2 + |tail|] == tail;
    if e.base.bit == 0 {
      assert DecodePlace(bs, x, vector, n) == WithDisp(p, bs, 4, 1);
    } else {
      assert DecodePlace(bs, x, vector, n) == WithDisp(p, bs, DispSize(m.0), n);
    }
  }

  lemma DecodeDirect(e: RegExp, reg: int, disp8N: nat, bs: seq<u8>, n: nat)
    requires Encodable(e) && !HasSIB(e) && Written(e, reg, disp8N, bs)
    requires e.base.idx == e.base.idx % 8 + 8 * (e.base.idx / 8 % 2) + 16 * (e.base.idx / 16 % 2)
    ensures var m := ModDisp(e.base, e.disp % W32, disp8N);
      DecodePlace(bs, ExtensionOf(e), Vector(e.index), n)
      == Some(PlaceOf(e, reg, |Head(e, reg, m.0)| + |Tail(e, m.0, m.1)|).(disp := ReadDisp(e, disp8N, n)))
  {
    hide ModDisp, Signed, SignedDisp, LE, ModRM, Factor;
  }

  datatype Mode = AsModRM | Disp64 | RipDisp | RipPointer

  function ModeOf(e: RegExp): Mode {
    if e.rip then if e.named.Some? || e.asPtr then RipPointer else RipDisp
    else if OnlyDisp(e) && (0x8000_0000 <= e.disp <= 0xFFFF_FFFF_8000_0000 || e.named.Some?) then Disp64
    else AsModRM
  }

  predicate IsVsib(e: RegExp) {
    e.index.bit == 128 || e.index.bit == 256 || e.index.bit == 512
  }

  /** The addresses of the labels that have one. */
  type Labels = map<nat, int>

  /** A label stands in a rip-relative operand. */
  predicate Placeable(e: RegExp) {
    e.named.Some? ==> e.rip
  }

  predicate Resolved(e: RegExp, labels: Labels) {
    e.named.Some? ==> e.named.value in labels
  }

  /** The displacement, modulo 2^64, that leads a rip-relative operand where it should go; 0 as long as its label has
      no address. */
  function Distance(e: RegExp, next: int, labels: Labels): int {
    if !Resolved(e, labels) then 0
    else if e.named.Some? then Wrap(labels[e.named.value] + e.disp - next)
    else if e.asPtr then Wrap(e.disp - next)
    else e.disp
  }

  /** opAddr; at is where its first byte goes, immSize the bytes of the immediate that follows. A label without an
      address yet leaves zeros. */
  function EncodeAddr(e: RegExp, reg: int, disp8N: nat, permitVsib: bool, at: int, immSize: nat, auto: bool,
                      labels: Labels): Option<seq<u8>>
    requires Placeable(e)
  {
    if !permitVsib && IsVsib(e) then None
    else match ModeOf(e)
      case AsModRM => EncodeSIB(Optimize(e), reg, disp8N)
      case RipDisp => if DispFits(e.disp) then Some([ModRM(0, reg, 5)] + LE(e.disp % W32, 4)) else None
      case RipPointer =>
        var d := Distance(e, at + 1 + 4 + immSize, labels);
        if (auto && e.named.None?) || !DispFits(d) then None else Some([ModRM(0, reg, 5)] + LE(d % W32, 4))
      case Disp64 => Some([])
  }

  lemma BuiltIsEncodable(t: Tree)
    requires Build(t).Some? && Verified(Build(t).value)
    ensures Encodable(Build(t).value) && Encodable(Optimize(Build(t).value))
  {
    BuildAccepts(t);
    BuiltDisp(t);
    if HasRip(t) { RipAlone(t); }
  }

  lemma {:induction false} RipAlone(t: Tree)
    requires RipFits(t) && HasRip(t)
    ensures Plain(t) == [] && Scaled(t) == []
  {
    match t
    case Plus(a, b) => RipAlone(a);
    case PlusNumber(a, _) => RipAlone(a);
    case MinusNumber(a, _) => RipAlone(a);
    case _ =>
  }

  lemma {:induction false} BuiltDisp(t: Tree)
    requires Build(t).Some?
    ensures 0 <= Build(t).value.disp < W64
  {
    match t
    case Plus(a, b) => BuiltDisp(a); BuiltDisp(b);
    case PlusNumber(a, _) => BuiltDisp(a);
    case MinusNumber(a, _) => BuiltDisp(a);
    case _ =>
  }

  /** The address a place stands for: its registers have the address size of the instruction, or that of the
      vectors for a vector index, and a relative one counts from the next instruction. */
  function AddressOf(p: Place, width: int, indexWidth: int, env: Env): int {
    (if p.base.Some? then env.reg(Reg(p.base.value, width)) else 0)
    + (if p.index.Some? then Times(env.reg(Reg(p.index.value, indexWidth)), p.scale) else 0)
    + p.disp + (if p.relative then env.rip else 0)
  }

  /** The 0x67 prefix is written exactly for addresses with a 32-bit register. */
  function Width(e: RegExp): int {
    if e.base.bit == 32 || e.index.bit == 32 then 32 else 64
  }

  lemma PlaceValue(e: RegExp, reg: int, size: nat, env: Env)
    requires Encodable(e) && e.named.None? && !e.rip
    ensures var w := Width(e);
      Same(AddressOf(PlaceOf(e, reg, size), w, if Vector(e.index) then e.index.bit else w, env), Value(e, env))
  {
    var k := if 2 * e.disp < W64 then 0 else -1;
    assert SignedDisp(e.disp) == e.disp + k * W64;
    assert e.base.bit != 0 ==> e.base == Reg(e.base.idx, Width(e));
    assert e.index.bit != 0 && !Vector(e.index) ==> e.index == Reg(e.index.idx, Width(e));
    var w := Width(e);
    var a := AddressOf(PlaceOf(e, reg, size), w, if Vector(e.index) then e.index.bit else w, env);
    assert a == Value(e, env) + k * W64;
  }

  /** From source text to machine address: whatever way an address is written with registers, scales and numbers,
      if it is accepted then the processor, decoding the bytes, computes the value the expression has, modulo 2^64. */
  lemma OperandMeansTree(t: Tree, env: Env, reg: int, disp8N: nat, rest: seq<u8>)
    requires Build(t).Some? && Verified(Build(t).value) && (disp8N == 0 || W32 % disp8N == 0)
    requires var e := Build(t).value; e.named.None? && !e.rip && EncodeSIB(Optimize(e), reg, disp8N).Some?
    ensures var e := Optimize(Build(t).value); var bs := EncodeSIB(e, reg, disp8N).value; var w := Width(e);
      var p := DecodePlace(bs + rest, ExtensionOf(e), Vector(e.index), Factor(disp8N));
      p.Some? && Same(AddressOf(p.value, w, if Vector(e.index) then e.index.bit else w, env), Eval(t, env))
  {
    var e0 := Build(t).value;
    BuiltIsEncodable(t);
    BuildKeepsValue(t, env);
    OptimizeKeeps(e0, env);
    var e := Optimize(e0);
    assert e.named.None? && !e.rip;
    var bs := EncodeSIB(e, reg, disp8N).value;
    SIBDecodes(e, reg, disp8N, rest);
    PlaceValue(e, reg, |bs|, env);
    hide Same, EncodeSIB, DecodePlace, Optimize, Encodable, Value, Eval, Build, AddressOf;
    var w := Width(e);
    var a := AddressOf(PlaceOf(e, reg, |bs|), w, if Vector(e.index) then e.index.bit else w, env);
    SameStep(a, Value(e, env), Eval(t, env));
  }

  lemma RelativeDecodes(reg: int, d: int, rest: seq<u8>, x: Extension, vector: bool, n: nat)
    requires 0 <= d < W64 && DispFits(d)
    ensures DecodePlace([ModRM(0, reg, 5)] + LE(d % W32, 4) + rest, x, vector, n)
         == Some(Place(None, None, 1, SignedDisp(d), true, reg % 8, 5))
  {
    var bs := [ModRM(0, reg, 5)] + LE(d % W32, 4) + rest;
    DispFitsMeans(d);
    Reads(d % W32, 4);
    assert bs[1..5] == LE(d % W32, 4);
    assert bs[0] == ModRM(0, reg, 5);
  }

  /** Where a rip-relative operand should go. */
  function Target(e: RegExp, next: int, labels: Labels): int
    requires Resolved(e, labels)
  {
    if e.named.Some? then labels[e.named.value] + e.disp else if e.asPtr then e.disp else next + e.disp
  }

  lemma DistanceReaches(e: RegExp, next: int, labels: Labels)
    requires e.rip && Resolved(e, labels)
    ensures Same(next + SignedDisp(Distance(e, next, labels)), Target(e, next, labels))
  {
    var d := Distance(e, next, labels);
    SignedSame(d);
    SameSame(next);
    SameAdd(next, next, SignedDisp(d), d);
    if e.named.Some? || e.asPtr {
      var t := Target(e, next, labels);
      WrapSame(t - next);
      SameAdd(next, next, d, t - next);
      SameStep(next + SignedDisp(d), next + d, t);
    }
  }

  /** [rip + n], [rip + pointer] and [rip + label + n]: the next instruction, with the immediate counted, plus the
      displacement is the address that was asked for. A pointer cannot be reached that way while the code may still
      move. */
  lemma RelativeReaches(e: RegExp, reg: int, disp8N: nat, at: int, immSize: nat, auto: bool, labels: Labels, rest: seq<u8>, next: int)
    requires e.rip && e.index == NONE && 0 <= e.disp < W64 && Resolved(e, labels)
    requires EncodeAddr(e, reg, disp8N, false, at, immSize, auto, labels).Some? && next == at + 5 + immSize
    ensures var bs := EncodeAddr(e, reg, disp8N, false, at, immSize, auto, labels).value;
      var p := DecodePlace(bs + rest, ExtensionOf(e), false, Factor(disp8N));
      && p.Some? && p.value.relative && p.value.base.None? && p.value.index.None? && p.value.size == |bs| == 5
      && Same(next + p.value.disp, Target(e, next, labels)) && (e.asPtr && e.named.None? ==> !auto)
  {
    RelativeDecodes(reg, Distance(e, next, labels), rest, ExtensionOf(e), false, Factor(disp8N));
    DistanceReaches(e, next, labels);
  }

  lemma SignedSame(d: int)
    ensures Same(SignedDisp(d), d)
  {
    var k := if 2 * d < W64 then 0 else -1;
    assert SignedDisp(d) == d + k * W64;
  }

  /** opAddr writes a ModR/M byte for every operand but a 64-bit absolute address. The legacy forms refuse such an
      address before they get here; opVex and opROO do not, and then lack their operand. */
  lemma OperandIsWritten(e: RegExp, reg: int, disp8N: nat, permitVsib: bool, at: int, immSize: nat, auto: bool, labels: Labels)
    requires Placeable(e) && EncodeAddr(e, reg, disp8N, permitVsib, at, immSize, auto, labels).Some?
    ensures EncodeAddr(e, reg, disp8N, permitVsib, at, immSize, auto, labels).value == []
        <==> !e.rip && e.base.bit == 0 && e.index.bit == 0 && 0x8000_0000 <= e.disp <= 0xFFFF_FFFF_8000_0000
  {}

  /** What opAddr refuses: a vector index that the instruction does not take, a pointer while the code may still move,
      and a displacement or a distance that 32 signed bits do not hold. */
  lemma AddrAccepts(e: RegExp, reg: int, disp8N: nat, permitVsib: bool, at: int, immSize: nat, auto: bool, labels: Labels)
    requires Encodable(e) && Placeable(e)
    ensures var d := SignedDisp(if e.rip then Distance(e, at + 5 + immSize, labels) else e.disp);
      EncodeAddr(e, reg, disp8N, permitVsib, at, immSize, auto, labels).Some?
      <==>
        && (128 <= e.index.bit <= 512 ==> permitVsib)
        && (e.rip && e.asPtr && e.named.None? ==> !auto)
        && (e.rip || e.base != NONE || e.index != NONE ==> -0x8000_0000 <= d < 0x8000_0000)
  {
    RangeIs();
    DispFitsMeans(e.disp);
    var d := Distance(e, at + 5 + immSize, labels);
    DispFitsMeans(d);
    hide DispFits, SignedDisp, LE, Head, Tail, ModDisp, ModRM, Distance, Verified;
  }

  /** A displacement or an immediate takes one byte exactly if that byte, sign-extended, is the same number. */
  lemma InDisp8Means(x: int)
    requires 0 <= x < W32
    ensures InDisp8(x) <==> Signed(LE(x, 1)) == Signed(LE(x, 4))
  {
    Reads(x, 4);
    if InDisp8(x) { Reads8(x); }
    else {
      OneByteIs(x);
      RangeIs();
      hide LE;
    }
  }

  /** When a label gets its address, the four bytes after ModR/M are filled in and no other byte changes. */
  lemma LabelIsFilled(e: RegExp, reg: int, disp8N: nat, permitVsib: bool, at: int, immSize: nat, auto: bool, labels: Labels)
    requires e.named.Some? && e.rip && e.index == NONE && Resolved(e, labels)
    ensures var zeros := EncodeAddr(e, reg, disp8N, permitVsib, at, immSize, auto, map[]);
      var d := Distance(e, at + 5 + immSize, labels);
      && zeros == Some([ModRM(0, reg, 5)] + LE(0, 4))
      && EncodeAddr(e, reg, disp8N, permitVsib, at, immSize, auto, labels)
      == if DispFits(d) then Some([ModRM(0, reg, 5)] + LE(d % W32, 4)) else None
  {}

  /** A reference to a label without an address: where its field ends, and what is to be added to the distance. */
  datatype Fixup = Fixup(id: nat, end: int, disp: int)

  /** What is left to be done after an operand whose field ends at end. */
  function Fixups(e: RegExp, end: int, immSize: nat, labels: Labels): seq<Fixup> {
    if Resolved(e, labels) then [] else [Fixup(e.named.value, end, Wrap(e.disp - immSize))]
  }

  lemma ModDispIs(base: Reg, disp: int, disp8N: nat)
    requires 0 <= disp < W32
    ensures var t := if disp8N == 0 then disp else Quotient(ToInt(disp), disp8N) % W32;
      ModDisp(base, disp, disp8N)
      == if base.bit == 0 || (base.idx % 8 != EBP && disp == 0) then (0, disp)
         else if (disp8N == 0 || disp % disp8N == 0) && InDisp8(t) then (1, t) else (2, disp)
  {
    hide Quotient, InDisp8;
  }

  lemma TailIs(e: RegExp)
    ensures forall disp {:trigger Tail(e, 1, disp)} :: Tail(e, 1, disp) == LE(disp, 1)
    ensures forall disp {:trigger Tail(e, 2, disp)} :: Tail(e, 2, disp) == LE(disp, 4)
    ensures forall disp {:trigger Tail(e, 0, disp)} :: Tail(e, 0, disp) == if e.base.bit == 0 then LE(disp, 4) else []
  {
    hide LE;
  }

  lemma OneByteIs(v: int)
    ensures LE(v, 1) == [v % 0x100]
  {
    assert LE(v, 1) == [v % 0x100] + LE(v / 0x100, 0);
  }

  class AddressEmitter {
    const base: int
    const auto: bool
    /** The labels that have an address; the others are recorded in fixups. */
    const labels: Labels
    var buf: seq<u8>
    var fixups: seq<Fixup>

    constructor (base: int, auto: bool, labels: Labels)
      ensures this.base == base && this.auto == auto && this.labels == labels && buf == [] && fixups == []
    {
      this.base, this.auto, this.labels, buf, fixups := base, auto, labels, [], [];
    }

    method SetModRM(mod: int, r1: int, r2: int)
      requires 0 <= mod < 4
      modifies this`buf
      ensures buf == old(buf) + [ModRM(mod, r1, r2)]
    {
      buf := buf + [mod * 64 + r1 % 8 * 8 + r2 % 8];
    }

    method Dd(v: int)
      modifies this`buf
      ensures buf == old(buf) + LE(v, 4)
    {
      var rest := v;
      for i := 0 to 4
        invariant buf + LE(rest, 4 - i) == old(buf) + LE(v, 4)
      {
        buf := buf + [rest % 0x100];
        rest := rest / 0x100;
      }
    }

    /** setSIB, step by step as the code writes it. */
    method SetSIB(e: RegExp, reg: int, disp8N: nat) returns (ok: bool)
      modifies this`buf
      ensures ok == EncodeSIB(e, reg, disp8N).Some?
      ensures buf == old(buf) + if ok then EncodeSIB(e, reg, disp8N).value else []
    {
      hide LE, Head, Tail, ModDisp;
      ModDispIs(e.base, e.disp % W32, disp8N);
      TailIs(e);
      var high := e.disp / 0x8000_0000;
      if high != 0 && high != 0x1_FFFF_FFFF { return false; }
      var disp := e.disp % W32;
      var mod := 2;
      if e.base.bit == 0 || (e.base.idx % 8 != EBP && disp == 0) {
        mod := 0;
      } else if disp8N == 0 {
        if InDisp8(disp) { mod := 1; }
      } else {
        var t := Quotient(ToInt(disp), disp8N) % W32;
        if disp % disp8N == 0 && InDisp8(t) {
          disp := t;
          mod := 1;
        }
      }
      assert (mod, disp) == ModDisp(e.base, e.disp % W32, disp8N);
      SetHead(e, reg, mod);
      if mod == 1 {
        buf := buf + [disp % 0x100];
        OneByteIs(disp);
      } else if mod == 2 || (mod == 0 && e.base.bit == 0) {
        Dd(disp);
      }
      assert buf == old(buf) + Head(e, reg, mod) + Tail(e, mod, disp);
      ok := true;
    }

    method SetHead(e: RegExp, reg: int, mod: int)
      requires 0 <= mod < 3
      modifies this`buf
      ensures buf == old(buf) + Head(e, reg, mod)
    {
      var newBaseIdx := if e.base.bit != 0 then e.base.idx % 8 else EBP;
      var hasSIB := e.index.bit != 0 || e.base.idx % 8 == ESP;
      if e.base.bit == 0 && e.index.bit == 0 { hasSIB := true; }
      if hasSIB {
        SetModRM(mod, reg, ESP);
        var idx := if e.index.bit != 0 then e.index.idx % 8 else ESP;
        SetModRM(SS(e.scale), idx, newBaseIdx);
      } else {
        SetModRM(mod, reg, newBaseIdx);
      }
    }

    /** opAddr. */
    method OpAddr(e: RegExp, reg: int, disp8N: nat, permitVsib: bool, immSize: nat) returns (ok: bool)
      requires Placeable(e)
      modifies this
      ensures var r := EncodeAddr(e, reg, disp8N, permitVsib, base + |old(buf)|, immSize, auto, labels);
        ok == r.Some? && (ok ==> buf == old(buf) + r.value)
      ensures ok ==> fixups == old(fixups) + Fixups(e, |buf|, immSize, labels)
    {
      hide LE, EncodeSIB, ModRM, DispFits, Wrap, Optimize, Distance;
      DistanceOf(e, base + |buf| + 5 + immSize);
      if !permitVsib && IsVsib(e) { return false; }
      var mode := ModeOf(e);
      if mode == AsModRM {
        ok := SetSIB(Optimize(e), reg, disp8N);
        return;
      }
      if mode == RipDisp || mode == RipPointer {
        SetModRM(0, reg, 5);
        if e.named.Some? {
          ok := PutL(e.named.value, Wrap(e.disp - immSize));
          if e.named.value in labels { DistanceSplit(e, base + |old(buf)| + 5, immSize, labels); }
          return;
        }
        var disp := e.disp;
        if mode == RipPointer {
          if auto { return false; }
          disp := Wrap(disp - (base + |buf| + 4 + immSize));
        }
        if !DispFits(disp) { return false; }
        Dd(disp % W32);
      }
      ok := true;
    }

    /** putL_inner for a relative field of four bytes. */
    method PutL(id: nat, disp: int) returns (ok: bool)
      modifies this
      ensures if id in labels then
          var d := Wrap(labels[id] + disp - (base + |old(buf)|) - 4);
          ok == DispFits(d) && (ok ==> buf == old(buf) + LE(d % W32, 4) && fixups == old(fixups))
        else ok && buf == old(buf) + LE(0, 4) && fixups == old(fixups) + [Fixup(id, |buf|, disp)]
    {
      if id in labels {
        var d := Wrap(labels[id] + disp - (base + |buf|) - 4);
        if !DispFits(d) { return false; }
        Dd(d % W32);
        return true;
      }
      Dd(0);
      fixups := fixups + [Fixup(id, |buf|, disp)];
      ok := true;
    }
  }

  lemma DistanceOf(e: RegExp, next: int)
    ensures e.named.None? ==> forall labels {:trigger Distance(e, next, labels)} ::
        Distance(e, next, labels) == if e.asPtr then Wrap(e.disp - next) else e.disp
    ensures forall labels {:trigger Distance(e, next, labels)} :: !Resolved(e, labels) ==> Distance(e, next, labels) == 0
    ensures DispFits(0)
  {}

  lemma DistanceSplit(e: RegExp, next: int, immSize: nat, labels: Labels)
    requires e.named.Some? && Resolved(e, labels)
    ensures Wrap(labels[e.named.value] + Wrap(e.disp - immSize) - (next - 4) - 4) == Distance(e, next + immSize, labels)
  {
    var a, d := labels[e.named.value] - next, e.disp - immSize;
    assert d == d / W64 * W64 + Wrap(d);
    WrapMultiple(a + Wrap(d), d / W64);
  }

  lemma WrapMultiple(v: int, k: int)
    ensures Wrap(v + k * W64) == Wrap(v)
  {
    Arith.DivUnique(v + k * W64, W64, v / W64 + k);
  }
}
