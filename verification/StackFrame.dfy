/** xbyak/xbyak_util.h: StackFrame, its register allocator, prolog and epilog, on a small 64-bit machine. */
module StackFrames {
  import opened Bytes

  const RAX := 0
  const RCX := 1
  const RDX := 2
  const RBX := 3
  const RSP := 4
  const RBP := 5
  const RSI := 6
  const RDI := 7
  const R30 := 30
  const R31 := 31

  type Gpr = r: int | 0 <= r < 32

  /** Options of the constructor, after the bits of tNum have been taken apart. */
  datatype Options = Options(pNum: int, tNum: int, rcx: bool, rdx: bool, rsi: bool, rdi: bool, rbp: bool, r30r31: bool,
                             framePointer: bool, push2: bool, ppx: bool, sse: bool, avx: bool, vecNum: nat, noVzeroupper: bool) {
    predicate IsUse(r: Gpr) {
      (r == RCX && rcx) || (r == RDX && rdx) || (r == RSI && rsi) || (r == RDI && rdi) || (r == RBP && rbp)
    }

    function UseNum(): nat {
      (if rcx then 1 else 0) + (if rdx then 1 else 0) + (if rsi then 1 else 0) + (if rdi then 1 else 0) + (if rbp then 1 else 0)
    }

    /** What the constructor does not refuse. */
    predicate Accepted() {
      && 0 <= pNum <= 4 && 0 <= tNum
      && !(sse && avx) && (noVzeroupper ==> avx)
      && (if !sse && !avx then vecNum == 0 else vecNum <= if avx then 32 else 16)
      && pNum + tNum + UseNum() <= 14
    }
  }

  const FLAG_RBP: bv32 := 0x20
  const FLAG_RCX: bv32 := 0x40
  const FLAG_RDX: bv32 := 0x80
  const FLAG_RSI: bv32 := 0x100
  const FLAG_RDI: bv32 := 0x200
  const FLAG_R30R31: bv32 := 0x400
  const FLAG_SSE: bv32 := 0x40_0000
  const FLAG_AVX: bv32 := 0x80_0000
  const FLAG_NOVZEROUPPER: bv32 := 0x100_0000
  const FLAG_PUSH2: bv32 := 0x1000_0000
  const FLAG_PPX: bv32 := 0x2000_0000
  const FLAG_RBP_AS_FRAME_POINTER: bv32 := 0x4000_0020
  const TNUM_MASK: bv32 := 0x8E00_F81F  // everything that is not a flag

  function Decode(pNum: int, tNum: bv32): Options {
    var t := (tNum & TNUM_MASK) as int;
    Options(pNum, if t < 0x8000_0000 then t else t - 0x1_0000_0000,
            tNum & FLAG_RCX != 0, tNum & FLAG_RDX != 0, tNum & FLAG_RSI != 0, tNum & FLAG_RDI != 0, tNum & FLAG_RBP != 0,
            tNum & FLAG_R30R31 != 0, tNum & FLAG_RBP_AS_FRAME_POINTER == FLAG_RBP_AS_FRAME_POINTER,
            tNum & FLAG_PUSH2 != 0, tNum & FLAG_PPX != 0, tNum & FLAG_SSE != 0, tNum & FLAG_AVX != 0,
            ((tNum >> 16) & 63) as int, tNum & FLAG_NOVZEROUPPER != 0)
  }

  predicate Set(word: bv32, bit: nat)
    requires bit < 32
  {
    (word >> bit) & 1 == 1
  }

  /** Which bit of the word says what; without bits that have no meaning the rest is the number of temporaries, and a
      negative word is none. */
  lemma FlagsAre(pNum: int, word: bv32)
    ensures var o := Decode(pNum, word);
      && o.pNum == pNum && (o.rbp <==> Set(word, 5)) && (o.rcx <==> Set(word, 6)) && (o.rdx <==> Set(word, 7)) && (o.rsi <==> Set(word, 8))
      && (o.rdi <==> Set(word, 9)) && (o.r30r31 <==> Set(word, 10)) && (o.framePointer <==> Set(word, 5) && Set(word, 30))
      && (o.push2 <==> Set(word, 28)) && (o.ppx <==> Set(word, 29)) && (o.sse <==> Set(word, 22)) && (o.avx <==> Set(word, 23))
      && (o.noVzeroupper <==> Set(word, 24)) && o.vecNum == ((word >> 16) & 63) as int
      && (word & 0x8E00_F800 == 0 ==> o.tNum == (word & 31) as int) && (Set(word, 31) ==> o.tNum < 0)
  {
    RegisterBits(word);
    OtherBits(word);
    CountBits(word);
    hide Set;
  }

  lemma RegisterBits(word: bv32)
    ensures (word & FLAG_RBP != 0 <==> Set(word, 5)) && (word & FLAG_RCX != 0 <==> Set(word, 6)) && (word & FLAG_RDX != 0 <==> Set(word, 7))
    ensures (word & FLAG_RSI != 0 <==> Set(word, 8)) && (word & FLAG_RDI != 0 <==> Set(word, 9))
    ensures word & FLAG_R30R31 != 0 <==> Set(word, 10)
    ensures word & FLAG_RBP_AS_FRAME_POINTER == FLAG_RBP_AS_FRAME_POINTER <==> Set(word, 5) && Set(word, 30)
  {}

  lemma OtherBits(word: bv32)
    ensures (word & FLAG_PUSH2 != 0 <==> Set(word, 28)) && (word & FLAG_PPX != 0 <==> Set(word, 29))
    ensures (word & FLAG_SSE != 0 <==> Set(word, 22)) && (word & FLAG_AVX != 0 <==> Set(word, 23))
    ensures word & FLAG_NOVZEROUPPER != 0 <==> Set(word, 24)
  {}

  lemma CountBits(word: bv32)
    ensures word & 0x8E00_F800 == 0 ==> word & TNUM_MASK == word & 31 && (word & TNUM_MASK) as int < 0x8000_0000
    ensures Set(word, 31) ==> (word & TNUM_MASK) as int >= 0x8000_0000
  {
    var t := word & TNUM_MASK;
    if word & 0x8E00_F800 == 0 { assert t == word & 31 && t < 32; }
    if Set(word, 31) { assert t >= 0x8000_0000; }
  }

  /** Win64 and System V AMD64 differ in the table, in how many of its registers are not saved, and in xmm. */
  function Table(win: bool): (t: seq<Gpr>)
    ensures |t| == 14
  {
    (if win then [RCX, RDX, 8, 9, 10, 11, RDI, RSI] else [RDI, RSI, RDX, RCX, 8, 9, 10, 11])
    + [RBX, RBP, 12, 13, 14, 15]
  }

  function NoSaveNum(win: bool): nat { if win then 6 else 8 }

  datatype Slot = Slot(target: Gpr, pos: nat, alt: int)

  function Slots(win: bool): (s: seq<Slot>)
    ensures |s| == 4 && s[0].alt < 32 && s[1].alt < 32 && s[2].alt < 32 && s[3].alt < 32
  {
    if win then [Slot(RCX, 0, 10), Slot(RDX, 1, 11), Slot(RDI, 6, -1), Slot(RSI, 7, -1)]
    else [Slot(RCX, 3, 10), Slot(RDX, 2, 11), Slot(RDI, 0, 8), Slot(RSI, 1, 9)]
  }

  function B(b: bool): nat { if b then 1 else 0 }

  /** What the scan of getRegIdx makes of table entry i: a register, or None if the entry is skipped. */
  function Pick(o: Options, win: bool, i: nat): Option<Gpr>
    requires i < 14
  {
    PickFrom(o, Table(win)[i], Slots(win), 0)
  }

  function PickFrom(o: Options, r: Gpr, slots: seq<Slot>, k: nat): Option<Gpr>
    requires k <= |slots| && forall s :: s in slots ==> s.alt < 32
    decreases |slots| - k
  {
    if k == |slots| then if o.IsUse(r) then None else Some(r)
    else
      var s := slots[k];
      if !o.IsUse(s.target) then PickFrom(o, r, slots, k + 1)
      else if r == s.alt then None
      else if r == s.target then if s.alt >= 0 then Some(s.alt) else None
      else PickFrom(o, r, slots, k + 1)
  }

  /** The registers picked from the first q entries, in order. */
  function Picks(o: Options, win: bool, q: nat): seq<Gpr>
    requires q <= 14
  {
    if q == 0 then []
    else
      var p := Pick(o, win, q - 1);
      Picks(o, win, q - 1) + (if p.Some? then [p.value] else [])
  }

  /** In closed form: an alternative is skipped when its target is reserved, and so are rbp and, on Win64, rdi
      and rsi, which have no alternative. */
  function PickIs(o: Options, win: bool, i: nat): Option<Gpr>
    requires i < 14
  {
    if win then
      if i == 0 then Some(if o.rcx then 10 else RCX)
      else if i == 1 then Some(if o.rdx then 11 else RDX)
      else if i == 2 then Some(8)
      else if i == 3 then Some(9)
      else if i == 4 then if o.rcx then None else Some(10)
      else if i == 5 then if o.rdx then None else Some(11)
      else if i == 6 then if o.rdi then None else Some(RDI)
      else if i == 7 then if o.rsi then None else Some(RSI)
      else if i == 8 then Some(RBX)
      else if i == 9 then if o.rbp then None else Some(RBP)
      else Some(i + 2)
    else
      if i == 0 then Some(if o.rdi then 8 else RDI)
      else if i == 1 then Some(if o.rsi then 9 else RSI)
      else if i == 2 then Some(if o.rdx then 11 else RDX)
      else if i == 3 then Some(if o.rcx then 10 else RCX)
      else if i == 4 then if o.rdi then None else Some(8)
      else if i == 5 then if o.rsi then None else Some(9)
      else if i == 6 then if o.rcx then None else Some(10)
      else if i == 7 then if o.rdx then None else Some(11)
      else if i == 8 then Some(RBX)
      else if i == 9 then if o.rbp then None else Some(RBP)
      else Some(i + 2)
  }

  lemma PickClosed(o: Options, win: bool, i: nat)
    requires i < 14
    ensures Pick(o, win, i) == PickIs(o, win, i)
  {
    var r, s := Table(win)[i], Slots(win);
    var p4, p3, p2, p1 := PickFrom(o, r, s, 4), PickFrom(o, r, s, 3), PickFrom(o, r, s, 2), PickFrom(o, r, s, 1);
    assert p4 == if o.IsUse(r) then None else Some(r);
  }

  lemma PickInjective(o: Options, win: bool, i: nat, j: nat)
    requires i < 14 && j < 14 && PickIs(o, win, i).Some? && PickIs(o, win, i) == PickIs(o, win, j)
    ensures i == j
  {}

  /** Which reserved registers make the scan skip one of the first q entries. */
  function Skipped(o: Options, win: bool, q: nat): nat {
    if win then
      B(o.rcx && q > 4) + B(o.rdx && q > 5) + B(o.rdi && q > 6) + B(o.rsi && q > 7) + B(o.rbp && q > 9)
    else
      B(o.rdi && q > 4) + B(o.rsi && q > 5) + B(o.rcx && q > 6) + B(o.rdx && q > 7) + B(o.rbp && q > 9)
  }

  lemma SkipStep(o: Options, win: bool, i: nat)
    requires i < 14
    ensures Skipped(o, win, i + 1) == Skipped(o, win, i) + (if PickIs(o, win, i).None? then 1 else 0)
    ensures Skipped(o, win, 0) == 0
  {}

  lemma {:induction false} PicksLength(o: Options, win: bool, q: nat)
    requires q <= 14
    ensures |Picks(o, win, q)| == q - Skipped(o, win, q)
  {
    SkipStep(o, win, 0);
    if q > 0 {
      hide Pick;
      PicksLength(o, win, q - 1);
      PickClosed(o, win, q - 1);
      SkipStep(o, win, q - 1);
    }
  }

  /** Every register handed out comes from an entry of its own. */
  lemma {:induction false} PicksFrom(o: Options, win: bool, q: nat, k: nat) returns (i: nat)
    requires q <= 14 && k < |Picks(o, win, q)|
    ensures i < q && k <= i && Pick(o, win, i) == Some(Picks(o, win, q)[k]) && |Picks(o, win, i)| == k
  {
    hide Pick;
    PicksLength(o, win, q);
    if k < |Picks(o, win, q - 1)| { i := PicksFrom(o, win, q - 1, k); }
    else { i := q - 1; }
  }

  /** The registers handed out are pairwise distinct, and none is rax, rsp or a reserved one. */
  lemma PicksDistinct(o: Options, win: bool, q: nat, k: nat, l: nat)
    requires q <= 14 && k < |Picks(o, win, q)| && l < |Picks(o, win, q)|
    ensures k != l ==> Picks(o, win, q)[k] != Picks(o, win, q)[l]
    ensures var r := Picks(o, win, q)[k]; r != RAX && r != RSP && r < 16 && !o.IsUse(r)
  {
    hide Pick;
    var i := PicksFrom(o, win, q, k);
    var j := PicksFrom(o, win, q, l);
    PickClosed(o, win, i); PickClosed(o, win, j);
    if Picks(o, win, q)[k] == Picks(o, win, q)[l] { PickInjective(o, win, i, j); }
    PickAllowed(o, win, i);
  }

  lemma PickAllowed(o: Options, win: bool, i: nat)
    requires i < 14 && PickIs(o, win, i).Some?
    ensures var r := PickIs(o, win, i).value; r != RAX && r != RSP && r < 16 && !o.IsUse(r)
    ensures PickIs(o, win, i).value == Table(win)[i] || PickIs(o, win, i).value in {8, 9, 10, 11}
  {}

  /** The scan stays in the table, however many registers are asked for within the limit. */
  lemma ScanStays(o: Options, win: bool, q: nat)
    requires o.Accepted() && q <= 14 && |Picks(o, win, q)| < o.pNum + o.tNum
    ensures q < 14
  {
    PicksLength(o, win, q);
  }

  predicate CalleeSaved(win: bool, r: Gpr) {
    r == RBX || r == RBP || 12 <= r <= 15 || (win && (r == RDI || r == RSI))
  }

  function BaseSaveNum(o: Options, win: bool): nat {
    var n := o.pNum + o.tNum + o.UseNum() - NoSaveNum(win);
    if n < 0 then 0 else n
  }

  function Callee(win: bool, i: nat): Gpr
    requires i < 14 - NoSaveNum(win)
  {
    Table(win)[NoSaveNum(win) + i]
  }

  /** The loop that fills saveRegs_ takes callee-saved entry i. */
  predicate Takes(o: Options, win: bool, i: nat)
    requires i < 14 - NoSaveNum(win)
  {
    i < BaseSaveNum(o, win) || o.IsUse(Callee(win, i))
  }

  /** saveRegs_: rbp first, then r30 and r31, then the callee-saved part of the table up to entry k. */
  function Saved(o: Options, win: bool, k: nat): seq<Gpr>
    requires k <= 14 - NoSaveNum(win)
  {
    if k == 0 then (if o.rbp then [RBP] else []) + (if o.r30r31 then [R30, R31] else [])
    else
      Saved(o, win, k - 1)
      + (if Takes(o, win, k - 1) && !(o.rbp && Callee(win, k - 1) == RBP) then [Callee(win, k - 1)] else [])
  }

  function SaveRegs(o: Options, win: bool): seq<Gpr> {
    Saved(o, win, 14 - NoSaveNum(win))
  }

  predicate InSaved(o: Options, win: bool, k: nat, r: Gpr)
    requires k <= 14 - NoSaveNum(win)
  {
    (r == RBP && o.rbp) || ((r == R30 || r == R31) && o.r30r31) || exists i :: 0 <= i < k && r == Callee(win, i) && Takes(o, win, i)
  }

  lemma CalleeIs(win: bool, i: nat, j: nat)
    requires i < 14 - NoSaveNum(win) && j < 14 - NoSaveNum(win)
    ensures CalleeSaved(win, Callee(win, i)) && (Callee(win, i) == Callee(win, j) ==> i == j)
    ensures Callee(win, i) == RBP <==> i == if win then 3 else 1
  {}

  lemma {:induction false} SavedIs(o: Options, win: bool, k: nat)
    requires k <= 14 - NoSaveNum(win)
    ensures forall r: Gpr :: r in Saved(o, win, k) <==> InSaved(o, win, k, r)
  {
    hide Callee, Takes;
    if k > 0 {
      SavedIs(o, win, k - 1);
      var last := if Takes(o, win, k - 1) && !(o.rbp && Callee(win, k - 1) == RBP) then [Callee(win, k - 1)] else [];
      forall r: Gpr ensures r in Saved(o, win, k) <==> InSaved(o, win, k, r) {
        assert r in Saved(o, win, k) <==> r in Saved(o, win, k - 1) || r in last;
        if r in last { assert r == Callee(win, k - 1) && Takes(o, win, k - 1); }
      }
    }
  }

  lemma SavedStep(o: Options, win: bool, k: nat)
    requires k < 14 - NoSaveNum(win)
    ensures Saved(o, win, k + 1)
         == Saved(o, win, k) + (if Takes(o, win, k) && !(o.rbp && Callee(win, k) == RBP) then [Callee(win, k)] else [])
  {
    hide Takes, Callee;
  }

  /** saveRegs_ has no register twice, fits its array, and starts with rbp when rbp was pushed early. */
  lemma {:induction false} SavedDistinct(o: Options, win: bool, k: nat)
    requires k <= 14 - NoSaveNum(win)
    ensures forall i, j :: 0 <= i < j < |Saved(o, win, k)| ==> Saved(o, win, k)[i] != Saved(o, win, k)[j]
    ensures |Saved(o, win, k)| <= k + 2 + (if o.rbp && (if win then k <= 3 else k <= 1) then 1 else 0)
    ensures o.rbp ==> |Saved(o, win, k)| > 0 && Saved(o, win, k)[0] == RBP
  {
    if k > 0 {
      SavedDistinct(o, win, k - 1);
      SavedIs(o, win, k - 1);
      CalleeIs(win, k - 1, k - 1);
      var c := Callee(win, k - 1);
      forall i | 0 <= i < k - 1 ensures Callee(win, i) != c { CalleeIs(win, i, k - 1); }
      hide Callee, Takes;
      if !(o.rbp && c == RBP) { assert !InSaved(o, win, k - 1, c); }
    }
  }

  lemma SaveRegsFit(o: Options, win: bool)
    ensures |SaveRegs(o, win)| <= 14 - NoSaveNum(win) + 2
  {
    SavedDistinct(o, win, 14 - NoSaveNum(win));
  }

  /** A callee-saved register that is handed out is in saveRegs_. */
  lemma PickedIsSaved(o: Options, win: bool, q: nat, k: nat)
    requires o.Accepted() && q <= 14 && k < |Picks(o, win, q)| && k < o.pNum + o.tNum
    requires CalleeSaved(win, Picks(o, win, q)[k])
    ensures Picks(o, win, q)[k] in SaveRegs(o, win)
  {
    hide Pick, Saved;
    var i := PicksFrom(o, win, q, k);
    PickClosed(o, win, i);
    PickAllowed(o, win, i);
    PicksLength(o, win, i);
    var r := Picks(o, win, q)[k];
    assert r == Table(win)[i];
    assert i >= NoSaveNum(win);
    var c := i - NoSaveNum(win);
    assert Callee(win, c) == r;
    assert Takes(o, win, c) by { SkippedBound(o, win, i); }
    SavedIs(o, win, 14 - NoSaveNum(win));
    assert InSaved(o, win, 14 - NoSaveNum(win), r);
  }

  lemma SkippedBound(o: Options, win: bool, q: nat)
    ensures Skipped(o, win, q) <= o.UseNum()
  {}

  /** What the constructor accepts: up to four parameters, no more registers in all than the scan can hand out, vector
      registers that the encoding has, and only with UseSSE or UseAVX, not both; NoVzeroupper only with UseAVX. */
  lemma AcceptsExactly(pNum: int, word: bv32, win: bool)
    ensures var o := Decode(pNum, word); var sse, avx := Set(word, 22), Set(word, 23);
      o.Accepted()
      <==>
        && 0 <= pNum <= 4 && 0 <= o.tNum && pNum + o.tNum <= |Picks(o, win, 14)|
        && !(sse && avx) && (Set(word, 24) ==> avx) && ((word >> 16) & 63) as int <= if avx then 32 else if sse then 16 else 0
  {
    var o := Decode(pNum, word);
    FlagsAre(pNum, word);
    hide Decode, Set, Pick, Picks;
    PicksLength(o, win, 14);
  }

  /** Which registers are saved: the reserved ones that the caller expects back, r30 and r31 on demand, and of the others
      those that come, in the order of the table, within the number of registers that are used. */
  lemma SavedExactly(o: Options, win: bool, r: Gpr)
    ensures r in SaveRegs(o, win)
      <==>
        || (o.r30r31 && (r == R30 || r == R31))
        || (CalleeSaved(win, r) && (o.IsUse(r) || exists j :: 0 <= j < 14 && j < o.pNum + o.tNum + o.UseNum() && Table(win)[j] == r))
  {
    var n, used := NoSaveNum(win), o.pNum + o.tNum + o.UseNum();
    SavedIs(o, win, 14 - n);
    hide Saved;
    if r in SaveRegs(o, win) && !(r == RBP && o.rbp) && !((r == R30 || r == R31) && o.r30r31) {
      var i :| 0 <= i < 14 - n && r == Callee(win, i) && Takes(o, win, i);
      CalleeIs(win, i, i);
      assert Table(win)[n + i] == r;
      assert o.IsUse(r) || n + i < used;
    }
    if CalleeSaved(win, r) && o.IsUse(r) { UsedIsSaved(o, win, r); }
    if CalleeSaved(win, r) && exists j :: 0 <= j < 14 && j < used && Table(win)[j] == r {
      var j :| 0 <= j < 14 && j < used && Table(win)[j] == r;
      CalleeComesLast(win, j);
      assert Callee(win, j - n) == r && Takes(o, win, j - n);
    }
  }

  lemma CalleeComesLast(win: bool, j: nat)
    requires j < 14
    ensures CalleeSaved(win, Table(win)[j]) <==> j >= NoSaveNum(win)
  {}

  /** Reserved callee-saved registers are saved too, and so is everything callee-saved the body may change. */
  lemma UsedIsSaved(o: Options, win: bool, r: Gpr)
    requires CalleeSaved(win, r) && o.IsUse(r)
    ensures r in SaveRegs(o, win)
  {
    SavedIs(o, win, 14 - NoSaveNum(win));
    var c := if r == RDI then 0 else if r == RSI then 1 else if win then 3 else 1;
    if r != RBP { assert win && Callee(win, c) == r && Takes(o, win, c); }
    assert InSaved(o, win, 14 - NoSaveNum(win), r);
  }

  /** The machine: 32 general registers, memory in 8-byte slots, and the low 128 bits of 32 vector registers. */
  type Regs = s: seq<int> | |s| == 32 witness seq(32, _ => 0)
  type Vecs = s: seq<(int, int)> | |s| == 32 witness seq(32, _ => (0, 0))
  datatype Cpu = Cpu(regs: Regs, mem: map<int, int>, xmm: Vecs) {
    function Rsp(): int { regs[RSP] }
    function Load(a: int): int { if a in mem then mem[a] else 0 }
    function SetRsp(v: int): Cpu { this.(regs := regs[RSP := v]) }
  }

  /** push2(a, b) is push a, push b and pop2(a, b) is pop a, pop b, on a stack pointer that is a multiple of 16;
      ppx marks the forms with the store-forwarding hint; vex marks vmovaps. */
  datatype Instr =
    | Push(r: Gpr, ppx: bool)
    | Push2(a: Gpr, b: Gpr, ppx: bool)
    | Pop(r: Gpr, ppx: bool)
    | Pop2(a: Gpr, b: Gpr, ppx: bool)
    | Mov(dst: Gpr, src: Gpr)
    | SubRsp(n: nat)
    | AddRsp(n: nat)
    | Store(offset: nat, x: Gpr, vex: bool)
    | Load(x: Gpr, offset: nat, vex: bool)
    | Vzeroupper
    | Ret

  /** One instruction; None is a fault: a misaligned 16-byte access, or rsp or equal registers in push2/pop2. */
  function Exec(i: Instr, c: Cpu): Option<Cpu> {
    var sp := c.Rsp();
    match i
    case Push(r, _) => Some(c.SetRsp(sp - 8).(mem := c.mem[sp - 8 := c.regs[r]]))
    case Push2(a, b, _) =>
      if sp % 16 != 0 || a == b || a == RSP || b == RSP then None
      else Some(c.SetRsp(sp - 16).(mem := c.mem[sp - 8 := c.regs[a]][sp - 16 := c.regs[b]]))
    case Pop(r, _) => Some(c.(regs := c.regs[RSP := sp + 8][r := c.Load(sp)]))
    case Pop2(a, b, _) =>
      if sp % 16 != 0 || a == b || a == RSP || b == RSP then None
      else Some(c.(regs := c.regs[RSP := sp + 16][a := c.Load(sp)][b := c.Load(sp + 8)]))
    case Mov(d, s) => Some(c.(regs := c.regs[d := c.regs[s]]))
    case SubRsp(n) => Some(c.SetRsp(sp - n))
    case AddRsp(n) => Some(c.SetRsp(sp + n))
    case Store(off, x, _) =>
      if (sp + off) % 16 != 0 then None
      else Some(c.(mem := c.mem[sp + off := c.xmm[x].0][sp + off + 8 := c.xmm[x].1]))
    case Load(x, off, _) =>
      if (sp + off) % 16 != 0 then None
      else Some(c.(xmm := c.xmm[x := (c.Load(sp + off), c.Load(sp + off + 8))]))
    case Vzeroupper => Some(c)
    case Ret => Some(c.SetRsp(sp + 8))
  }

  function Run(code: seq<Instr>, c: Cpu): Option<Cpu> {
    if code == [] then Some(c)
    else
      var d :- Exec(code[0], c);
      Run(code[1..], d)
  }

  lemma {:induction false} RunConcat(a: seq<Instr>, b: seq<Instr>, c: Cpu)
    ensures Run(a + b, c) == if Run(a, c).Some? then Run(b, Run(a, c).value) else None
    decreases |a|
  {
    hide Exec;
    if a == [] { assert a + b == b; }
    else {
      assert (a + b)[1..] == a[1..] + b;
      var d := Exec(a[0], c);
      if d.Some? { RunConcat(a[1..], b, d.value); }
    }
  }

  /** The constructor's loop that pushes saveRegs_ from entry i on, in pairs where rsp is aligned. */
  function Pushes(o: Options, saved: seq<Gpr>, i: nat): seq<Instr>
    requires i <= |saved|
    decreases |saved| - i
  {
    if i == |saved| then []
    else if o.push2 && i % 2 == 1 && i + 1 < |saved| then [Push2(saved[i], saved[i + 1], o.ppx)] + Pushes(o, saved, i + 2)
    else [Push(saved[i], o.ppx)] + Pushes(o, saved, i + 1)
  }

  /** close()'s loop that pops them again, from entry n - 1 down. */
  function Pops(o: Options, saved: seq<Gpr>, n: nat): seq<Instr>
    requires n <= |saved|
  {
    var start := if o.rbp then 1 else 0;
    if n == 0 then []
    else if o.push2 && n % 2 == 1 && n >= 2 + start then [Pop2(saved[n - 1], saved[n - 2], o.ppx)] + Pops(o, saved, n - 2)
    else [Pop(saved[n - 1], o.ppx)] + Pops(o, saved, n - 1)
  }

  function Mirror(i: Instr): Instr {
    match i
    case Push(r, h) => Pop(r, h)
    case Push2(a, b, h) => Pop2(b, a, h)
    case _ => i
  }

  function Mirrored(code: seq<Instr>): seq<Instr> {
    if code == [] then [] else Mirrored(code[1..]) + [Mirror(code[0])]
  }

  lemma {:induction false} MirroredConcat(a: seq<Instr>, b: seq<Instr>)
    ensures Mirrored(a + b) == Mirrored(b) + Mirrored(a)
    decreases |a|
  {
    if a == [] { assert a + b == b; } else { assert (a + b)[1..] == a[1..] + b; MirroredConcat(a[1..], b); }
  }

  /** The registers of a saved set that can be pushed and popped: distinct, and not rsp. */
  predicate Savable(saved: seq<Gpr>) {
    && (forall k :: 0 <= k < |saved| ==> saved[k] != RSP)
    && forall k, l :: 0 <= k < l < |saved| ==> saved[k] != saved[l]
  }

  lemma PushEffect(r: Gpr, ppx: bool, c: Cpu)
    ensures var d := Exec(Push(r, ppx), c); var sp := c.Rsp();
      && d.Some? && d.value == c.SetRsp(sp - 8).(mem := d.value.mem) && d.value.Load(sp - 8) == c.regs[r]
      && forall a :: a != sp - 8 ==> d.value.Load(a) == c.Load(a)
  {}

  lemma Push2Effect(a: Gpr, b: Gpr, ppx: bool, c: Cpu)
    requires c.Rsp() % 16 == 0 && a != b && a != RSP && b != RSP
    ensures var d := Exec(Push2(a, b, ppx), c); var sp := c.Rsp();
      && d.Some? && d.value == c.SetRsp(sp - 16).(mem := d.value.mem)
      && d.value.Load(sp - 8) == c.regs[a] && d.value.Load(sp - 16) == c.regs[b]
      && forall x :: x != sp - 8 && x != sp - 16 ==> d.value.Load(x) == c.Load(x)
  {}

  /** d is c after entries i.. were stored, each in its own slot below the entry stack pointer, and nothing else. */
  ghost predicate Stored(saved: seq<Gpr>, i: nat, c: Cpu, d: Cpu, entry: int) {
    && d == c.SetRsp(entry - 8 * |saved|).(mem := d.mem)
    && (forall k :: i <= k < |saved| ==> d.Load(entry - 8 * (k + 1)) == c.regs[saved[k]])
    && (forall a :: a > entry - 8 * (i + 1) ==> d.Load(a) == c.Load(a))
  }

  lemma PushThen(saved: seq<Gpr>, i: nat, c: Cpu, ppx: bool, r: Cpu, entry: int)
    requires i < |saved| && Savable(saved) && c.Rsp() == entry - 8 * i
    requires Exec(Push(saved[i], ppx), c).Some? && Stored(saved, i + 1, Exec(Push(saved[i], ppx), c).value, r, entry)
    ensures Stored(saved, i, c, r, entry)
  {
    PushEffect(saved[i], ppx, c);
    hide Cpu.Load, Exec;
  }

  lemma Push2Then(saved: seq<Gpr>, i: nat, c: Cpu, ppx: bool, r: Cpu, entry: int)
    requires i + 1 < |saved| && Savable(saved) && c.Rsp() == entry - 8 * i && c.Rsp() % 16 == 0
    requires Exec(Push2(saved[i], saved[i + 1], ppx), c).Some?
    requires Stored(saved, i + 2, Exec(Push2(saved[i], saved[i + 1], ppx), c).value, r, entry)
    ensures Stored(saved, i, c, r, entry)
  {
    Push2Effect(saved[i], saved[i + 1], ppx, c);
    hide Cpu.Load, Exec;
  }

  /** The loop executes without a fault: every push2 finds rsp a multiple of 16. */
  lemma {:induction false} PushesRun(o: Options, saved: seq<Gpr>, i: nat, c: Cpu, entry: int)
    requires i <= |saved| && Savable(saved) && entry % 16 == 8 && c.Rsp() == entry - 8 * i
    ensures Run(Pushes(o, saved, i), c).Some? && Stored(saved, i, c, Run(Pushes(o, saved, i), c).value, entry)
    decreases |saved| - i
  {
    hide Cpu.Load, Exec;
    if i == |saved| {
      assert Stored(saved, i, c, c, entry);
    } else {
      hide Stored;
      var pair := o.push2 && i % 2 == 1 && i + 1 < |saved|;
      var ins := if pair then Push2(saved[i], saved[i + 1], o.ppx) else Push(saved[i], o.ppx);
      var next := if pair then i + 2 else i + 1;
      assert Pushes(o, saved, i) == [ins] + Pushes(o, saved, next) && ([ins] + Pushes(o, saved, next))[1..] == Pushes(o, saved, next);
      if pair { Push2Effect(saved[i], saved[i + 1], o.ppx, c); } else { PushEffect(saved[i], o.ppx, c); }
      var d := Exec(ins, c).value;
      PushesRun(o, saved, next, d, entry);
      var r := Run(Pushes(o, saved, next), d).value;
      if pair { Push2Then(saved, i, c, o.ppx, r, entry); } else { PushThen(saved, i, c, o.ppx, r, entry); }
    }
  }

  lemma PopEffect(r: Gpr, ppx: bool, c: Cpu)
    requires r != RSP
    ensures var d := Exec(Pop(r, ppx), c); var sp := c.Rsp();
      && d.Some? && d.value == c.(regs := d.value.regs) && d.value.Rsp() == sp + 8 && d.value.regs[r] == c.Load(sp)
      && forall g: Gpr :: g != RSP && g != r ==> d.value.regs[g] == c.regs[g]
  {}

  lemma Pop2Effect(a: Gpr, b: Gpr, ppx: bool, c: Cpu)
    requires c.Rsp() % 16 == 0 && a != b && a != RSP && b != RSP
    ensures var d := Exec(Pop2(a, b, ppx), c); var sp := c.Rsp();
      && d.Some? && d.value == c.(regs := d.value.regs) && d.value.Rsp() == sp + 16
      && d.value.regs[a] == c.Load(sp) && d.value.regs[b] == c.Load(sp + 8)
      && forall g: Gpr :: g != RSP && g != a && g != b ==> d.value.regs[g] == c.regs[g]
  {}

  /** d is c after entries n-1 .. 0 were taken back from their slots, and nothing else. */
  ghost predicate Fetched(saved: seq<Gpr>, n: nat, c: Cpu, d: Cpu, entry: int) {
    && n <= |saved| && d.Rsp() == entry && d == c.(regs := d.regs)
    && (forall k :: 0 <= k < n ==> d.regs[saved[k]] == c.Load(entry - 8 * (k + 1)))
    && (forall g: Gpr :: g != RSP && (forall k :: 0 <= k < n ==> saved[k] != g) ==> d.regs[g] == c.regs[g])
  }

  lemma PopThen(saved: seq<Gpr>, n: nat, c: Cpu, d: Cpu, r: Cpu, entry: int)
    requires 0 < n <= |saved| && Savable(saved) && c.Rsp() == entry - 8 * n && d == c.(regs := d.regs)
    requires d.regs[saved[n - 1]] == c.Load(c.Rsp())
    requires forall g: Gpr :: g != RSP && g != saved[n - 1] ==> d.regs[g] == c.regs[g]
    requires Fetched(saved, n - 1, d, r, entry)
    ensures Fetched(saved, n, c, r, entry)
  {
    LoadIsMem(c, d);
    hide Cpu.Load;
    forall k | 0 <= k < n ensures r.regs[saved[k]] == c.Load(entry - 8 * (k + 1)) {
      if k == n - 1 { assert r.regs[saved[k]] == d.regs[saved[k]]; }
    }
  }

  lemma Pop2Then(saved: seq<Gpr>, n: nat, c: Cpu, d: Cpu, r: Cpu, entry: int)
    requires 1 < n <= |saved| && Savable(saved) && c.Rsp() == entry - 8 * n && d == c.(regs := d.regs)
    requires d.regs[saved[n - 1]] == c.Load(c.Rsp()) && d.regs[saved[n - 2]] == c.Load(c.Rsp() + 8)
    requires forall g: Gpr :: g != RSP && g != saved[n - 1] && g != saved[n - 2] ==> d.regs[g] == c.regs[g]
    requires Fetched(saved, n - 2, d, r, entry)
    ensures Fetched(saved, n, c, r, entry)
  {
    LoadIsMem(c, d);
    hide Cpu.Load;
    forall k | 0 <= k < n ensures r.regs[saved[k]] == c.Load(entry - 8 * (k + 1)) {
      if k >= n - 2 { assert r.regs[saved[k]] == d.regs[saved[k]]; }
    }
  }

  lemma LoadIsMem(c: Cpu, d: Cpu)
    requires c.mem == d.mem
    ensures forall x :: c.Load(x) == d.Load(x)
  {}

  /** The popping loop executes without a fault: every pop2 finds rsp a multiple of 16. */
  lemma {:induction false} PopsRun(o: Options, saved: seq<Gpr>, n: nat, c: Cpu, entry: int)
    requires n <= |saved| && Savable(saved) && entry % 16 == 8 && c.Rsp() == entry - 8 * n
    ensures Run(Pops(o, saved, n), c).Some? && Fetched(saved, n, c, Run(Pops(o, saved, n), c).value, entry)
  {
    hide Cpu.Load, Exec;
    if n > 0 {
      hide Fetched;
      var pair := o.push2 && n % 2 == 1 && n >= 2 + (if o.rbp then 1 else 0);
      var ins := if pair then Pop2(saved[n - 1], saved[n - 2], o.ppx) else Pop(saved[n - 1], o.ppx);
      var rest := if pair then n - 2 else n - 1;
      assert Pops(o, saved, n) == [ins] + Pops(o, saved, rest) && ([ins] + Pops(o, saved, rest))[1..] == Pops(o, saved, rest);
      if pair { Pop2Effect(saved[n - 1], saved[n - 2], o.ppx, c); } else { PopEffect(saved[n - 1], o.ppx, c); }
      var d := Exec(ins, c).value;
      PopsRun(o, saved, rest, d, entry);
      var r := Run(Pops(o, saved, rest), d).value;
      if pair { Pop2Then(saved, n, c, d, r, entry); } else { PopThen(saved, n, c, d, r, entry); }
    }
  }

  lemma {:induction false} OneMorePush(o: Options, t: seq<Gpr>, x: Gpr, i: nat)
    requires i <= |t| && (o.push2 ==> |t| % 2 == 1 || |t| == 0)
    ensures Pushes(o, t + [x], i) == Pushes(o, t, i) + [Push(x, o.ppx)]
    decreases |t| - i
  {
    if i < |t| { OneMorePush(o, t, x, if o.push2 && i % 2 == 1 && i + 1 < |t| then i + 2 else i + 1); }
  }

  lemma {:induction false} OneMorePair(o: Options, t: seq<Gpr>, x: Gpr, y: Gpr, i: nat)
    requires i <= |t| && o.push2 && |t| % 2 == 1
    ensures Pushes(o, t + [x, y], i) == Pushes(o, t, i) + [Push2(x, y, o.ppx)]
    decreases |t| - i
  {
    if i < |t| { OneMorePair(o, t, x, y, if i % 2 == 1 && i + 1 < |t| then i + 2 else i + 1); }
    else { assert Pushes(o, t + [x, y], i + 2) == []; }
  }

  /** close() pops in exactly the reverse of the constructor's grouping, whether rbp was pushed early or not. */
  lemma {:induction false} PopsMirrorPushes(o: Options, saved: seq<Gpr>, n: nat)
    requires n <= |saved|
    ensures Pops(o, saved, n) == Mirrored(Pushes(o, saved[..n], 0))
  {
    if n > 0 {
      if o.push2 && n % 2 == 1 && n >= 2 + B(o.rbp) {
        var t := saved[..n - 2];
        assert saved[..n] == t + [saved[n - 2], saved[n - 1]];
        OneMorePair(o, t, saved[n - 2], saved[n - 1], 0);
        PopsMirrorPushes(o, saved, n - 2);
        var pair := Push2(saved[n - 2], saved[n - 1], o.ppx);
        MirroredConcat(Pushes(o, t, 0), [pair]);
        assert Mirrored([pair]) == [Mirror(pair)];
      } else {
        var t := saved[..n - 1];
        assert saved[..n] == t + [saved[n - 1]];
        OneMorePush(o, t, saved[n - 1], 0);
        PopsMirrorPushes(o, saved, n - 1);
        var one := Push(saved[n - 1], o.ppx);
        MirroredConcat(Pushes(o, t, 0), [one]);
        assert Mirrored([one]) == [Mirror(one)];
      }
    }
  }

  /** vecSaveNum_, vecPos_ and P_. */
  function VecSaveNum(o: Options, win: bool): nat {
    if win && o.vecNum > 6 then (if o.vecNum < 16 then o.vecNum else 16) - 6 else 0
  }

  function VecPos(o: Options, win: bool, size: nat): nat {
    if VecSaveNum(o, win) > 0 then (size + 15) / 16 * 16 else 0
  }

  function FrameSize(o: Options, win: bool, size: nat): nat {
    var odd := |SaveRegs(o, win)| % 2 == 1;
    if VecSaveNum(o, win) > 0 then VecPos(o, win, size) + 16 * VecSaveNum(o, win) + (if odd then 0 else 8)
    else
      var words := (size + 7) / 8;
      8 * (if words > 0 && (words % 2 == 1) == odd then words + 1 else words)
  }

  lemma RoundUp16(size: nat)
    ensures (size + 15) / 16 * 16 == 16 * ((size + 15) / 16) && size <= 16 * ((size + 15) / 16)
  {}

  /** If anything is reserved, the body starts 16-byte aligned with its local area below the vector slots, and
      those are aligned, disjoint from it and below the pushed registers. */
  lemma FrameIsAligned(o: Options, win: bool, size: nat, entry: int)
    requires entry % 16 == 8
    ensures var body := entry - 8 * |SaveRegs(o, win)| - FrameSize(o, win, size);
      && size <= FrameSize(o, win, size)
      && (FrameSize(o, win, size) > 0 ==> body % 16 == 0)
      && forall i :: 0 <= i < VecSaveNum(o, win) ==>
        && (body + VecPos(o, win, size) + 16 * i) % 16 == 0
        && size <= VecPos(o, win, size) + 16 * i && VecPos(o, win, size) + 16 * i + 16 <= FrameSize(o, win, size)
  {
    hide SaveRegs, VecSaveNum;
    var n, v := |SaveRegs(o, win)|, VecSaveNum(o, win);
    var body := entry - 8 * n - FrameSize(o, win, size);
    if v > 0 {
      var blocks := (size + 15) / 16;
      RoundUp16(size);
      assert VecPos(o, win, size) == 16 * blocks && size <= 16 * blocks;
      hide VecPos;
      AlignedBelow(entry, n, 2 * (blocks + v) + B(n % 2 == 0));
    } else {
      var words := FrameSize(o, win, size) / 8;
      assert words > 0 ==> (n + words) % 2 == 1;
      hide FrameSize;
      if words > 0 { AlignedBelow(entry, n, words); }
    }
  }

  /** No larger than that takes: none for an empty local area without vectors, and otherwise less than one alignment
      unit, and one word, more than the local area and the vectors. */
  lemma FrameIsSmall(o: Options, win: bool, size: nat)
    ensures var vectors := 16 * VecSaveNum(o, win);
      && FrameSize(o, win, size) < size + vectors + (if vectors > 0 then 24 else 16)
      && (size == 0 && vectors == 0 ==> FrameSize(o, win, size) == 0) && FrameSize(o, win, size) % 8 == 0
  {
    FrameIs(o, win, size);
    hide FrameSize, SaveRegs, VecSaveNum;
    RoundUp16(size);
    WordsOf(size);
    EightTimes(2 * ((size + 15) / 16 + VecSaveNum(o, win)));
    EightTimes(2 * ((size + 15) / 16 + VecSaveNum(o, win)) + 1);
    EightTimes((size + 7) / 8);
    EightTimes((size + 7) / 8 + 1);
  }

  lemma FrameIs(o: Options, win: bool, size: nat)
    ensures var v, odd, words := VecSaveNum(o, win), |SaveRegs(o, win)| % 2 == 1, (size + 7) / 8;
      FrameSize(o, win, size)
      == if v > 0 then 8 * (2 * ((size + 15) / 16 + v) + (if odd then 0 else 1))
         else 8 * (if words > 0 && (words % 2 == 1) == odd then words + 1 else words)
  {
    hide SaveRegs, VecSaveNum;
    RoundUp16(size);
  }

  lemma WordsOf(size: nat)
    ensures 8 * ((size + 7) / 8) < size + 8 && (size == 0 ==> (size + 7) / 8 == 0) && 16 * ((size + 15) / 16) < size + 16
  {}

  lemma EightTimes(n: nat)
    ensures 8 * n % 8 == 0
  {}

  lemma AlignedBelow(entry: int, n: nat, words: nat)
    requires entry % 16 == 8 && (n + words) % 2 == 1
    ensures (entry - 8 * n - 8 * words) % 16 == 0
  {
    var k := (n + words) / 2;
    assert entry - 8 * n - 8 * words == entry - 8 - 16 * k;
  }

  lemma VectorsAligned(o: Options, win: bool, size: nat, entry: int)
    requires entry % 16 == 8
    ensures VecSaveNum(o, win) > 0 ==>
      (entry - 8 * |SaveRegs(o, win)| - FrameSize(o, win, size) + VecPos(o, win, size)) % 16 == 0
  {
    FrameIsAligned(o, win, size, entry);
    hide SaveRegs, FrameSize, VecPos, VecSaveNum;
    var body := entry - 8 * |SaveRegs(o, win)| - FrameSize(o, win, size);
    if VecSaveNum(o, win) > 0 { assert (body + VecPos(o, win, size) + 16 * 0) % 16 == 0; }
  }

  function Stores(o: Options, win: bool, size: nat, i: nat): seq<Instr>
    requires i <= VecSaveNum(o, win)
    decreases VecSaveNum(o, win) - i
  {
    if i == VecSaveNum(o, win) then []
    else [Instr.Store(VecPos(o, win, size) + i * 16, 6 + i, o.noVzeroupper)] + Stores(o, win, size, i + 1)
  }

  function Loads(o: Options, win: bool, size: nat, i: nat): seq<Instr>
    requires i <= VecSaveNum(o, win)
    decreases VecSaveNum(o, win) - i
  {
    if i == VecSaveNum(o, win) then []
    else [Instr.Load(6 + i, VecPos(o, win, size) + i * 16, o.noVzeroupper)] + Loads(o, win, size, i + 1)
  }

  function Alternate(o: Options, s: Slot): seq<Instr>
    requires s.alt < 32
  {
    if o.IsUse(s.target) && s.pos < o.pNum && s.alt >= 0 then [Mov(s.alt, s.target)] else []
  }

  /** The moves from reserved argument registers to their alternatives, for slots k and up. */
  function Alternates(o: Options, win: bool, k: nat): seq<Instr>
    requires k <= 4
    decreases 4 - k
  {
    if k == 4 then [] else Alternate(o, Slots(win)[k]) + Alternates(o, win, k + 1)
  }

  function EarlyRbp(o: Options): seq<Instr> {
    if !o.rbp then [] else [Push(RBP, o.ppx)] + if o.framePointer then [Mov(RBP, RSP)] else []
  }

  function Reserve(o: Options, win: bool, size: nat): seq<Instr> {
    if FrameSize(o, win, size) > 0 then [SubRsp(FrameSize(o, win, size))] else []
  }

  lemma StartFits(o: Options, win: bool)
    ensures B(o.rbp) <= |SaveRegs(o, win)|
  {
    SavedDistinct(o, win, 14 - NoSaveNum(win));
  }

  function Prolog(o: Options, win: bool, size: nat): seq<Instr> {
    StartFits(o, win);
    EarlyRbp(o) + Pushes(o, SaveRegs(o, win), B(o.rbp)) + Reserve(o, win, size) + Stores(o, win, size, 0) + Alternates(o, win, 0)
  }

  function Epilog(o: Options, win: bool, size: nat, callRet: bool): seq<Instr> {
    CleanUpper(o) + Loads(o, win, size, 0) + Release(o, win, size) + Pops(o, SaveRegs(o, win), |SaveRegs(o, win)|)
    + Return(callRet)
  }

  lemma SaveRegsSavable(o: Options, win: bool)
    ensures Savable(SaveRegs(o, win))
  {
    var k := 14 - NoSaveNum(win);
    SavedDistinct(o, win, k);
    SavedIs(o, win, k);
    forall i | 0 <= i < |Saved(o, win, k)| ensures Saved(o, win, k)[i] != RSP {
      assert Saved(o, win, k)[i] in Saved(o, win, k);
    }
  }

  /** After the pushes: every saved register has its entry value in its slot, and only rsp and, as a frame
      pointer, rbp have changed. */
  ghost predicate Entered(o: Options, saved: seq<Gpr>, c: Cpu, d: Cpu, entry: int) {
    && d.Rsp() == entry - 8 * |saved| && d.xmm == c.xmm
    && (forall k :: 0 <= k < |saved| ==> d.Load(entry - 8 * (k + 1)) == c.regs[saved[k]])
    && (forall a :: a > entry - 8 ==> d.Load(a) == c.Load(a))
    && (forall g: Gpr :: g != RSP && !(g == RBP && o.framePointer) ==> d.regs[g] == c.regs[g])
    && (o.rbp && o.framePointer ==> d.regs[RBP] == entry - 8 && d.Load(entry - 8) == c.regs[RBP])
  }

  lemma EarlyRbpRun(o: Options, c: Cpu)
    requires o.rbp
    ensures var r := Run(EarlyRbp(o), c); var sp := c.Rsp();
      && r.Some? && r.value.Rsp() == sp - 8 && r.value.xmm == c.xmm && r.value.Load(sp - 8) == c.regs[RBP]
      && (forall a :: a != sp - 8 ==> r.value.Load(a) == c.Load(a))
      && (forall g: Gpr :: g != RSP && !(g == RBP && o.framePointer) ==> r.value.regs[g] == c.regs[g])
      && (o.framePointer ==> r.value.regs[RBP] == sp - 8)
  {
    PushEffect(RBP, o.ppx, c);
    var d := Exec(Push(RBP, o.ppx), c).value;
    if o.framePointer {
      var code := [Push(RBP, o.ppx), Mov(RBP, RSP)];
      assert EarlyRbp(o) == code && code[1..] == [Mov(RBP, RSP)] && code[1..][1..] == [];
      assert Run(code, c) == Run([Mov(RBP, RSP)], d) == Exec(Mov(RBP, RSP), d);
    } else {
      assert EarlyRbp(o) == [Push(RBP, o.ppx)];
      assert Run([Push(RBP, o.ppx)], c) == Some(d);
    }
  }

  lemma EnteredEarly(o: Options, saved: seq<Gpr>, c: Cpu, d: Cpu, r: Cpu, entry: int)
    requires o.rbp && Savable(saved) && |saved| > 0 && saved[0] == RBP && c.Rsp() == entry
    requires d.Rsp() == entry - 8 && d.xmm == c.xmm && d.Load(entry - 8) == c.regs[RBP]
    requires forall a :: a != entry - 8 ==> d.Load(a) == c.Load(a)
    requires forall g: Gpr :: g != RSP && !(g == RBP && o.framePointer) ==> d.regs[g] == c.regs[g]
    requires (o.framePointer ==> d.regs[RBP] == entry - 8) && Stored(saved, 1, d, r, entry)
    ensures Entered(o, saved, c, r, entry)
  {
    hide Cpu.Load;
    forall k | 0 <= k < |saved| ensures r.Load(entry - 8 * (k + 1)) == c.regs[saved[k]] {
      if k > 0 { assert saved[k] != saved[0]; }
    }
  }

  lemma EntryRun(o: Options, win: bool, c: Cpu, entry: int)
    requires c.Rsp() == entry && entry % 16 == 8
    ensures B(o.rbp) <= |SaveRegs(o, win)|
    ensures var saved := SaveRegs(o, win); var r := Run(EarlyRbp(o) + Pushes(o, saved, B(o.rbp)), c);
      r.Some? && Entered(o, saved, c, r.value, entry)
  {
    var saved := SaveRegs(o, win);
    SaveRegsSavable(o, win);
    SavedDistinct(o, win, 14 - NoSaveNum(win));
    RunConcat(EarlyRbp(o), Pushes(o, saved, B(o.rbp)), c);
    hide SaveRegs, Exec, Pushes, Cpu.Load;
    if o.rbp {
      EarlyRbpRun(o, c);
      var d := Run(EarlyRbp(o), c).value;
      PushesRun(o, saved, 1, d, entry);
      hide Stored, Entered;
      EnteredEarly(o, saved, c, d, Run(Pushes(o, saved, 1), d).value, entry);
    } else {
      PushesRun(o, saved, 0, c, entry);
      hide Stored;
      EnteredAll(o, saved, c, Run(Pushes(o, saved, 0), c).value, entry);
    }
  }

  lemma EnteredAll(o: Options, saved: seq<Gpr>, c: Cpu, r: Cpu, entry: int)
    requires !o.rbp && c.Rsp() == entry && Stored(saved, 0, c, r, entry)
    ensures Entered(o, saved, c, r, entry)
  {
    hide Cpu.Load;
  }

  /** The vectors from number i on have been stored at base and behind, and nothing else has changed. */
  ghost predicate VectorsStored(c: Cpu, d: Cpu, base: int, i: nat, n: nat)
    requires n <= 10
  {
    && d == c.(mem := d.mem)
    && (forall j :: i <= j < n ==> d.Load(base + 16 * j) == c.xmm[6 + j].0 && d.Load(base + 16 * j + 8) == c.xmm[6 + j].1)
    && (forall a :: a < base + 16 * i || a >= base + 16 * n ==> d.Load(a) == c.Load(a))
  }

  lemma {:induction false} StoresRun(o: Options, win: bool, size: nat, i: nat, c: Cpu)
    requires i <= VecSaveNum(o, win) && (VecSaveNum(o, win) > 0 ==> (c.Rsp() + VecPos(o, win, size)) % 16 == 0)
    ensures VecSaveNum(o, win) <= 10
    ensures var r := Run(Stores(o, win, size, i), c);
      r.Some? && VectorsStored(c, r.value, c.Rsp() + VecPos(o, win, size), i, VecSaveNum(o, win))
    decreases VecSaveNum(o, win) - i
  {
    AtMostTen(o, win);
    if i < VecSaveNum(o, win) {
      hide VecPos, VecSaveNum, Run, Stores, Exec, VectorsStored;
      var base := c.Rsp() + VecPos(o, win, size);
      var d := c.(mem := c.mem[base + 16 * i := c.xmm[6 + i].0][base + 16 * i + 8 := c.xmm[6 + i].1]);
      StoreRuns(o, win, size, i, c, d);
      StoresRun(o, win, size, i + 1, d);
      OneVectorMore(c, d, Run(Stores(o, win, size, i + 1), d).value, base, i, VecSaveNum(o, win));
    } else {
      assert Stores(o, win, size, i) == [];
    }
  }

  lemma OneVectorMore(c: Cpu, d: Cpu, r: Cpu, base: int, i: nat, n: nat)
    requires i < n <= 10 && d == c.(mem := c.mem[base + 16 * i := c.xmm[6 + i].0][base + 16 * i + 8 := c.xmm[6 + i].1])
    requires VectorsStored(d, r, base, i + 1, n)
    ensures VectorsStored(c, r, base, i, n)
  {
    assert d.Load(base + 16 * i) == c.xmm[6 + i].0 && d.Load(base + 16 * i + 8) == c.xmm[6 + i].1;
    assert forall a :: a != base + 16 * i && a != base + 16 * i + 8 ==> d.Load(a) == c.Load(a);
    hide Cpu.Load;
  }

  lemma AtMostTen(o: Options, win: bool)
    ensures VecSaveNum(o, win) <= 10
  {}

  lemma StoreRuns(o: Options, win: bool, size: nat, i: nat, c: Cpu, d: Cpu)
    requires i < VecSaveNum(o, win) <= 10 && (c.Rsp() + VecPos(o, win, size)) % 16 == 0
    requires var a := c.Rsp() + VecPos(o, win, size) + 16 * i; d == c.(mem := c.mem[a := c.xmm[6 + i].0][a + 8 := c.xmm[6 + i].1])
    ensures Run(Stores(o, win, size, i), c) == Run(Stores(o, win, size, i + 1), d)
  {
    hide VecPos, VecSaveNum;
    var ins := Instr.Store(VecPos(o, win, size) + i * 16, 6 + i, o.noVzeroupper);
    assert ([ins] + Stores(o, win, size, i + 1))[1..] == Stores(o, win, size, i + 1);
    assert Exec(ins, c) == Some(d);
  }

  lemma {:induction false} LoadsRun(o: Options, win: bool, size: nat, i: nat, c: Cpu)
    requires i <= VecSaveNum(o, win) && (VecSaveNum(o, win) > 0 ==> (c.Rsp() + VecPos(o, win, size)) % 16 == 0)
    ensures var r := Run(Loads(o, win, size, i), c); var base := c.Rsp() + VecPos(o, win, size);
      && r.Some? && r.value == c.(xmm := r.value.xmm)
      && (forall x :: 6 + i <= x < 6 + VecSaveNum(o, win) ==>
        r.value.xmm[x] == (c.Load(base + 16 * (x - 6)), c.Load(base + 16 * (x - 6) + 8)))
      && (forall x :: 0 <= x < 6 + i || 6 + VecSaveNum(o, win) <= x < 32 ==> r.value.xmm[x] == c.xmm[x])
    decreases VecSaveNum(o, win) - i
  {
    hide VecPos;
    if i < VecSaveNum(o, win) {
      var ins := Instr.Load(6 + i, VecPos(o, win, size) + i * 16, o.noVzeroupper);
      var d := Exec(ins, c).value;
      LoadsRun(o, win, size, i + 1, d);
      assert ([ins] + Loads(o, win, size, i + 1))[1..] == Loads(o, win, size, i + 1);
    }
  }

  function MovedBy(o: Options, s: Slot, regs: Regs): Regs
    requires s.alt < 32
  {
    if o.IsUse(s.target) && s.pos < o.pNum && s.alt >= 0 then regs[s.alt := regs[s.target]] else regs
  }

  /** The registers after the moves of slots k and up. */
  function Moved(o: Options, win: bool, k: nat, regs: Regs): Regs
    requires k <= 4
    decreases 4 - k
  {
    if k == 4 then regs
    else
      var s := Slots(win)[k];
      Moved(o, win, k + 1, MovedBy(o, s, regs))
  }

  lemma MovEffect(d: Gpr, s: Gpr, c: Cpu)
    ensures Exec(Mov(d, s), c) == Some(c.(regs := c.regs[d := c.regs[s]]))
  {}

  lemma MovThen(d: Gpr, s: Gpr, rest: seq<Instr>, c: Cpu)
    ensures Run([Mov(d, s)] + rest, c) == Run(rest, c.(regs := c.regs[d := c.regs[s]]))
  {
    hide Exec, Cpu.Load;
    MovEffect(d, s, c);
    assert ([Mov(d, s)] + rest)[1..] == rest;
  }

  lemma AlternateThen(o: Options, s: Slot, rest: seq<Instr>, c: Cpu)
    requires s.alt < 32
    ensures Run(Alternate(o, s) + rest, c) == Run(rest, c.(regs := MovedBy(o, s, c.regs)))
  {
    hide Run, Options.IsUse;
    if o.IsUse(s.target) && s.pos < o.pNum && s.alt >= 0 { MovThen(s.alt, s.target, rest, c); }
    else { assert Alternate(o, s) + rest == rest; }
  }

  lemma {:induction false} AlternatesRun(o: Options, win: bool, k: nat, c: Cpu)
    requires k <= 4
    ensures Run(Alternates(o, win, k), c) == Some(c.(regs := Moved(o, win, k, c.regs)))
    decreases 4 - k
  {
    hide Slots, Alternate, MovedBy, Exec;
    if k < 4 {
      hide Run;
      var s := Slots(win)[k];
      AlternateThen(o, s, Alternates(o, win, k + 1), c);
      AlternatesRun(o, win, k + 1, c.(regs := MovedBy(o, s, c.regs)));
    }
  }

  /** p[i], the register handed out for parameter i, then holds what the i-th argument register held. */
  lemma MovedIsArgument(o: Options, win: bool, regs: Regs, i: nat)
    requires i < o.pNum <= 4
    ensures PickIs(o, win, i).Some? && Moved(o, win, 0, regs)[PickIs(o, win, i).value] == regs[Table(win)[i]]
  {
    var r4 := Moved(o, win, 4, regs);
    MovedUnrolled(o, win, regs);
  }

  lemma MovedUnrolled(o: Options, win: bool, regs: Regs)
    ensures win ==> Moved(o, win, 0, regs) == Alt(o, RDX, 1, 11, Alt(o, RCX, 0, 10, regs))
    ensures !win ==> Moved(o, win, 0, regs) == Alt(o, RSI, 1, 9, Alt(o, RDI, 0, 8, Alt(o, RDX, 2, 11, Alt(o, RCX, 3, 10, regs))))
  {}

  function Alt(o: Options, target: Gpr, pos: nat, alt: Gpr, regs: Regs): Regs {
    if o.IsUse(target) && pos < o.pNum then regs[alt := regs[target]] else regs
  }

  lemma MovedOnlyAlternates(o: Options, win: bool, regs: Regs, g: Gpr)
    requires !(8 <= g <= 11)
    ensures Moved(o, win, 0, regs)[g] == regs[g]
  {
    MovedUnrolled(o, win, regs);
  }

  /** The registers handed out: the first pNum are p, the next tNum are t. */
  function Given(o: Options, win: bool): (g: seq<Gpr>)
    requires o.Accepted()
    ensures |g| == o.pNum + o.tNum
  {
    PicksLength(o, win, 14);
    Picks(o, win, 14)[..o.pNum + o.tNum]
  }

  /** The registers handed out are pairwise distinct, never rax, rsp or a reserved one, and those among them that
      the caller expects back are in saveRegs_. */
  lemma GivenIsSound(o: Options, win: bool, k: nat, l: nat)
    requires o.Accepted() && k < |Given(o, win)| && l < |Given(o, win)|
    ensures k != l ==> Given(o, win)[k] != Given(o, win)[l]
    ensures var r := Given(o, win)[k];
      && r != RAX && r != RSP && r < 16 && !o.IsUse(r)
      && (CalleeSaved(win, r) ==> r in SaveRegs(o, win))
  {
    PicksLength(o, win, 14);
    PicksDistinct(o, win, 14, k, l);
    if CalleeSaved(win, Given(o, win)[k]) { PickedIsSaved(o, win, 14, k); }
  }

  lemma {:induction false} PicksGrow(o: Options, win: bool, q: nat, r: nat)
    requires q <= r <= 14
    ensures Picks(o, win, q) <= Picks(o, win, r)
    decreases r - q
  {
    if q < r { PicksGrow(o, win, q, r - 1); }
  }

  /** p[i] comes from table entry i, because none of the first four entries is ever skipped. */
  lemma ParameterIs(o: Options, win: bool, i: nat)
    requires o.Accepted() && i < o.pNum
    ensures Some(Given(o, win)[i]) == PickIs(o, win, i)
  {
    PicksLength(o, win, i);
    PicksLength(o, win, 14);
    PickClosed(o, win, i);
    PicksGrow(o, win, i + 1, 14);
    hide PickFrom;
    assert |Picks(o, win, i)| == i;
    assert Picks(o, win, i + 1)[i] == PickIs(o, win, i).value;
  }

  /** What the prolog has established when the body starts. */
  ghost predicate Prepared(o: Options, win: bool, size: nat, c: Cpu, d: Cpu)
    requires o.Accepted()
  {
    var saved := SaveRegs(o, win);
    var entry := c.Rsp();
    var base := d.Rsp() + VecPos(o, win, size);
    && d.Rsp() == entry - 8 * |saved| - FrameSize(o, win, size) && d.xmm == c.xmm
    && (forall k :: 0 <= k < |saved| ==> d.Load(entry - 8 * (k + 1)) == c.regs[saved[k]])
    && (forall j :: 0 <= j < VecSaveNum(o, win) ==>
      d.Load(base + 16 * j) == c.xmm[6 + j].0 && d.Load(base + 16 * j + 8) == c.xmm[6 + j].1)
    && (forall a :: a > entry - 8 ==> d.Load(a) == c.Load(a))
    && (forall g: Gpr :: g != RSP && !(8 <= g <= 11) && !(g == RBP && o.framePointer) ==> d.regs[g] == c.regs[g])
    && (o.rbp && o.framePointer ==> d.regs[RBP] == entry - 8 && d.Load(entry - 8) == c.regs[RBP])
  }

  lemma PrologParts(o: Options, win: bool, size: nat, c: Cpu, a: Cpu, b: Cpu, d: Cpu)
    requires B(o.rbp) <= |SaveRegs(o, win)|
    requires Run(EarlyRbp(o) + Pushes(o, SaveRegs(o, win), B(o.rbp)), c) == Some(a)
    requires Run(Reserve(o, win, size), a) == Some(b) && Run(Stores(o, win, size, 0), b) == Some(d)
    ensures Run(Prolog(o, win, size), c) == Run(Alternates(o, win, 0), d)
  {
    hide SaveRegs, Run, Exec, Pushes, EarlyRbp, Reserve, Stores, Alternates;
    var p1 := EarlyRbp(o) + Pushes(o, SaveRegs(o, win), B(o.rbp));
    RunConcat(p1, Reserve(o, win, size), c);
    RunConcat(p1 + Reserve(o, win, size), Stores(o, win, size, 0), c);
    RunConcat(p1 + Reserve(o, win, size) + Stores(o, win, size, 0), Alternates(o, win, 0), c);
  }

  lemma ReserveRun(o: Options, win: bool, size: nat, c: Cpu)
    ensures Run(Reserve(o, win, size), c) == Some(c.SetRsp(c.Rsp() - FrameSize(o, win, size)))
  {
    hide FrameSize;
    if FrameSize(o, win, size) > 0 { assert Reserve(o, win, size)[1..] == []; }
    else { assert c.regs[RSP := c.regs[RSP]] == c.regs; }
  }

  /** Where the calling conventions pass the first four integer arguments. */
  function Argument(win: bool, i: nat): Gpr
    requires i < 4
  {
    if win then if i == 0 then 1 else if i == 1 then 2 else if i == 2 then 8 else 9
    else if i == 0 then 7 else if i == 1 then 6 else if i == 2 then 2 else 1
  }

  /** The prolog runs without a fault, saves what must be saved, leaves argument i in p[i], and with
      UseRBPAsFramePointer leaves rbp at the place of the caller's rbp, next to the return address. */
  lemma PrologPrepares(o: Options, win: bool, size: nat, c: Cpu)
    requires o.Accepted() && c.Rsp() % 16 == 8
    ensures var r := Run(Prolog(o, win, size), c);
      && r.Some? && Prepared(o, win, size, c, r.value)
      && (forall i :: 0 <= i < o.pNum ==> r.value.regs[Given(o, win)[i]] == c.regs[Argument(win, i)])
      && (o.rbp && o.framePointer ==> r.value.regs[RBP] == c.Rsp() - 8 && r.value.Load(r.value.regs[RBP]) == c.regs[RBP])
  {
    hide SaveRegs, Run, Exec, Pushes, Stores, Alternates, Prolog, Moved, FrameSize, VecPos, VecSaveNum, Cpu.Load, VectorsStored, Given;
    var saved := SaveRegs(o, win);
    var entry := c.Rsp();
    EntryRun(o, win, c, entry);
    var a := Run(EarlyRbp(o) + Pushes(o, saved, B(o.rbp)), c).value;
    ReserveRun(o, win, size, a);
    var b := a.SetRsp(a.Rsp() - FrameSize(o, win, size));
    VectorsAligned(o, win, size, entry);
    StoresRun(o, win, size, 0, b);
    var d := Run(Stores(o, win, size, 0), b).value;
    PrologParts(o, win, size, c, a, b, d);
    AlternatesRun(o, win, 0, d);
    var e := d.(regs := Moved(o, win, 0, d.regs));
    PreparedBy(o, win, size, c, a, b, d, e);
    hide Entered;
    EntryKept(o, a, b, d, c, size, win);
    forall i | 0 <= i < o.pNum ensures e.regs[Given(o, win)[i]] == c.regs[Argument(win, i)] {
      ParameterIs(o, win, i);
      MovedIsArgument(o, win, d.regs, i);
      TableStarts(win, i);
    }
  }

  /** Neither the reserved room nor the stored vectors touch a register that an argument comes in. */
  lemma EntryKept(o: Options, a: Cpu, b: Cpu, d: Cpu, c: Cpu, size: nat, win: bool)
    requires Entered(o, SaveRegs(o, win), c, a, c.Rsp()) && b == a.SetRsp(a.Rsp() - FrameSize(o, win, size))
    requires VecSaveNum(o, win) <= 10 && VectorsStored(b, d, b.Rsp() + VecPos(o, win, size), 0, VecSaveNum(o, win))
    ensures forall g: Gpr :: g != RSP && g != RBP ==> d.regs[g] == c.regs[g]
  {
    hide Cpu.Load, SaveRegs, FrameSize, VecPos, VecSaveNum;
  }

  lemma TableStarts(win: bool, i: nat)
    requires i < 4
    ensures Table(win)[i] == Argument(win, i) && Argument(win, i) in {RCX, RDX, 8, 9, RDI, RSI}
  {}

  lemma PreparedBy(o: Options, win: bool, size: nat, c: Cpu, a: Cpu, b: Cpu, d: Cpu, e: Cpu)
    requires o.Accepted() && c.Rsp() % 16 == 8 && Entered(o, SaveRegs(o, win), c, a, c.Rsp())
    requires b == a.SetRsp(a.Rsp() - FrameSize(o, win, size)) && VecSaveNum(o, win) <= 10
    requires VectorsStored(b, d, b.Rsp() + VecPos(o, win, size), 0, VecSaveNum(o, win))
    requires e == d.(regs := Moved(o, win, 0, d.regs))
    ensures Prepared(o, win, size, c, e)
  {
    var saved := SaveRegs(o, win);
    FrameIsAligned(o, win, size, c.Rsp());
    var v := VecSaveNum(o, win);
    assert v > 0 ==> VecPos(o, win, size) + 16 * (v - 1) + 16 <= FrameSize(o, win, size);
    hide SaveRegs, FrameSize, VecPos, VecSaveNum, Cpu.Load, Moved;
    assert forall x :: b.Load(x) == a.Load(x) by { LoadIsMem(a, b); }
    assert forall x :: e.Load(x) == d.Load(x) by { LoadIsMem(d, e); }
    forall g: Gpr | !(8 <= g <= 11) ensures e.regs[g] == d.regs[g] { MovedOnlyAlternates(o, win, d.regs, g); }
  }

  /** What a body may do: it keeps rsp, the stack from its local area up to the return address, every
      callee-saved register that is neither handed out nor reserved, and on Win64 the saved xmm registers it has
      not declared. Everything else, including all other memory, it may change. */
  ghost predicate BodyKeeps(o: Options, win: bool, size: nat, c: Cpu, d: Cpu, entry: int)
    requires o.Accepted()
  {
    && d.Rsp() == c.Rsp()
    && (forall a :: c.Rsp() + size <= a <= entry ==> d.Load(a) == c.Load(a))
    && (forall g: Gpr :: CalleeSaved(win, g) && g !in Given(o, win) && !o.IsUse(g) ==> d.regs[g] == c.regs[g])
    && (win ==> forall x :: 6 <= x < 16 && x >= o.vecNum ==> d.xmm[x] == c.xmm[x])
  }

  /** A register the convention protects is in saveRegs_ or out of the body's reach. */
  lemma ProtectedIsSaved(o: Options, win: bool, g: Gpr)
    requires o.Accepted() && CalleeSaved(win, g) && (g in Given(o, win) || o.IsUse(g))
    ensures g in SaveRegs(o, win)
  {
    if o.IsUse(g) { UsedIsSaved(o, win, g); }
    else {
      var k :| 0 <= k < |Given(o, win)| && Given(o, win)[k] == g;
      PicksLength(o, win, 14);
      PickedIsSaved(o, win, 14, k);
    }
  }

  lemma ReservedIsSaved(o: Options, win: bool)
    ensures o.r30r31 ==> R30 in SaveRegs(o, win) && R31 in SaveRegs(o, win)
  {
    var k := 14 - NoSaveNum(win);
    SavedIs(o, win, k);
    assert o.r30r31 ==> InSaved(o, win, k, R30) && InSaved(o, win, k, R31);
  }

  function CleanUpper(o: Options): seq<Instr> {
    if o.avx && !o.noVzeroupper then [Vzeroupper] else []
  }

  function Release(o: Options, win: bool, size: nat): seq<Instr> {
    if FrameSize(o, win, size) > 0 then [AddRsp(FrameSize(o, win, size))] else []
  }

  function Return(callRet: bool): seq<Instr> {
    if callRet then [Ret] else []
  }

  lemma CleanUpperRun(o: Options, c: Cpu)
    ensures Run(CleanUpper(o), c) == Some(c)
  {}

  lemma ReleaseRun(o: Options, win: bool, size: nat, c: Cpu)
    ensures Run(Release(o, win, size), c) == Some(c.SetRsp(c.Rsp() + FrameSize(o, win, size)))
  {
    hide FrameSize;
    if FrameSize(o, win, size) > 0 { assert Release(o, win, size)[1..] == []; }
    else { assert c.regs[RSP := c.regs[RSP]] == c.regs; }
  }

  lemma ReturnRun(callRet: bool, c: Cpu)
    ensures Run(Return(callRet), c) == Some(if callRet then c.SetRsp(c.Rsp() + 8) else c)
  {}

  lemma EpilogParts(o: Options, win: bool, size: nat, callRet: bool, c: Cpu, a: Cpu, b: Cpu, d: Cpu)
    requires Run(Loads(o, win, size, 0), c) == Some(a) && Run(Release(o, win, size), a) == Some(b)
    requires Run(Pops(o, SaveRegs(o, win), |SaveRegs(o, win)|), b) == Some(d)
    ensures Run(Epilog(o, win, size, callRet), c) == Run(Return(callRet), d)
  {
    CleanUpperRun(o, c);
    hide SaveRegs, Run, Exec, Pops, Loads, Release, Return, CleanUpper;
    RunConcat(CleanUpper(o), Loads(o, win, size, 0), c);
    RunConcat(CleanUpper(o) + Loads(o, win, size, 0), Release(o, win, size), c);
    var pops := Pops(o, SaveRegs(o, win), |SaveRegs(o, win)|);
    RunConcat(CleanUpper(o) + Loads(o, win, size, 0) + Release(o, win, size), pops, c);
    RunConcat(CleanUpper(o) + Loads(o, win, size, 0) + Release(o, win, size) + pops, Return(callRet), c);
  }

  /** The calling convention across prolog, body and epilog. */
  ghost predicate Restored(o: Options, win: bool, c: Cpu, d: Cpu) {
    && (forall g: Gpr :: CalleeSaved(win, g) || (o.r30r31 && (g == R30 || g == R31)) ==> d.regs[g] == c.regs[g])
    && (win ==> forall x :: 6 <= x < 16 ==> d.xmm[x] == c.xmm[x])
  }

  /** The stack frame keeps the calling convention: for all accepted options, every local size and every body that
      stays within its rights, the epilog runs without a fault, returns rsp and every protected register to its
      value at entry, and finds the return address where it was. */
  lemma KeepsCallingConvention(o: Options, win: bool, size: nat, callRet: bool, c: Cpu, body: Cpu)
    requires o.Accepted() && (o.framePointer ==> o.rbp) && c.Rsp() % 16 == 8
    requires Run(Prolog(o, win, size), c).Some?
    requires BodyKeeps(o, win, size, Run(Prolog(o, win, size), c).value, body, c.Rsp())
    ensures var r := Run(Epilog(o, win, size, callRet), body);
      && r.Some? && r.value.Rsp() == c.Rsp() + (if callRet then 8 else 0)
      && Restored(o, win, c, r.value)
      && r.value.mem == body.mem && r.value.Load(c.Rsp()) == c.Load(c.Rsp()) && r.value.regs[RAX] == body.regs[RAX]
  {
    hide SaveRegs, FrameSize, VecPos, VecSaveNum, Given, Run, Exec, Prolog, Epilog, Loads, Release, Pops, Return, Cpu.Load;
    var p := Run(Prolog(o, win, size), c).value;
    PrologPrepares(o, win, size, c);
    var saved, entry := SaveRegs(o, win), c.Rsp();
    FrameIsAligned(o, win, size, entry);
    VectorsAligned(o, win, size, entry);
    LoadsRun(o, win, size, 0, body);
    var a := Run(Loads(o, win, size, 0), body).value;
    ReleaseRun(o, win, size, a);
    var b := a.SetRsp(a.Rsp() + FrameSize(o, win, size));
    SaveRegsSavable(o, win);
    PopsRun(o, saved, |saved|, b, entry);
    var d := Run(Pops(o, saved, |saved|), b).value;
    EpilogParts(o, win, size, callRet, body, a, b, d);
    ReturnRun(callRet, d);
    RegistersRestored(o, win, size, c, p, body, a, b, d);
    if win { VectorsRestored(o, win, size, c, p, body, a); }
    NoRax(o, win);
    var r := if callRet then d.SetRsp(d.Rsp() + 8) else d;
    ReturnAddress(o, win, size, c, p, body, r);
  }

  lemma ReturnAddress(o: Options, win: bool, size: nat, c: Cpu, p: Cpu, body: Cpu, r: Cpu)
    requires o.Accepted() && Prepared(o, win, size, c, p) && BodyKeeps(o, win, size, p, body, c.Rsp()) && r.mem == body.mem
    requires size <= FrameSize(o, win, size)
    ensures r.Load(c.Rsp()) == c.Load(c.Rsp())
  {
    LoadIsMem(r, body);
    hide Cpu.Load, FrameSize, SaveRegs;
  }

  lemma NoRax(o: Options, win: bool)
    ensures RAX !in SaveRegs(o, win)
  {
    SavedIs(o, win, 14 - NoSaveNum(win));
  }

  /** UseRBPAsFramePointer contains UseRBP, in every flag word. */
  lemma FrameNeedsRbp(pNum: int, tNum: bv32)
    ensures Decode(pNum, tNum).framePointer ==> Decode(pNum, tNum).rbp
  {
    if tNum & FLAG_RBP_AS_FRAME_POINTER == FLAG_RBP_AS_FRAME_POINTER {
      assert tNum & FLAG_RBP == (tNum & FLAG_RBP_AS_FRAME_POINTER) & FLAG_RBP;
    }
  }

  /** The same for the arguments of the constructor: whatever it accepts keeps the calling convention. */
  lemma EveryFlagWordKeeps(pNum: int, tNum: bv32, win: bool, size: nat, callRet: bool, c: Cpu, body: Cpu)
    requires Decode(pNum, tNum).Accepted() && c.Rsp() % 16 == 8
    ensures var o := Decode(pNum, tNum); var p := Run(Prolog(o, win, size), c);
      && p.Some?
      && (o.framePointer ==> p.value.regs[RBP] == c.Rsp() - 8 && p.value.Load(p.value.regs[RBP]) == c.regs[RBP])
      && (BodyKeeps(o, win, size, p.value, body, c.Rsp()) ==>
        var r := Run(Epilog(o, win, size, callRet), body);
        && r.Some? && r.value.Rsp() == c.Rsp() + (if callRet then 8 else 0)
        && Restored(o, win, c, r.value)
        && r.value.mem == body.mem && r.value.Load(c.Rsp()) == c.Load(c.Rsp()) && r.value.regs[RAX] == body.regs[RAX])
  {
    var o := Decode(pNum, tNum);
    FrameNeedsRbp(pNum, tNum);
    hide Decode, Options.Accepted, Run, Prolog, Epilog, BodyKeeps, Restored, Prepared;
    PrologPrepares(o, win, size, c);
    if BodyKeeps(o, win, size, Run(Prolog(o, win, size), c).value, body, c.Rsp()) {
      KeepsCallingConvention(o, win, size, callRet, c, body);
    }
  }

  lemma RegistersRestored(o: Options, win: bool, size: nat, c: Cpu, p: Cpu, body: Cpu, a: Cpu, b: Cpu, d: Cpu)
    requires o.Accepted() && (o.framePointer ==> o.rbp) && Prepared(o, win, size, c, p) && BodyKeeps(o, win, size, p, body, c.Rsp())
    requires a == body.(xmm := a.xmm) && b == a.SetRsp(a.Rsp() + FrameSize(o, win, size))
    requires size <= FrameSize(o, win, size)
    requires var saved := SaveRegs(o, win);
      && (forall k :: 0 <= k < |saved| ==> d.regs[saved[k]] == b.Load(c.Rsp() - 8 * (k + 1)))
      && (forall g: Gpr :: g != RSP && g !in saved ==> d.regs[g] == b.regs[g])
    ensures forall g: Gpr :: CalleeSaved(win, g) || (o.r30r31 && (g == R30 || g == R31)) ==> d.regs[g] == c.regs[g]
  {
    var saved := SaveRegs(o, win);
    LoadIsMem(body, b);
    ReservedIsSaved(o, win);
    hide SaveRegs, FrameSize, VecPos, VecSaveNum, Cpu.Load, Given;
    forall g: Gpr | CalleeSaved(win, g) || (o.r30r31 && (g == R30 || g == R31)) ensures d.regs[g] == c.regs[g] {
      if g in saved {
        var k :| 0 <= k < |saved| && saved[k] == g;
        assert d.regs[g] == b.Load(c.Rsp() - 8 * (k + 1)) == body.Load(c.Rsp() - 8 * (k + 1));
      } else {
        if g in Given(o, win) || o.IsUse(g) { ProtectedIsSaved(o, win, g); }
      }
    }
  }

  lemma VectorsRestored(o: Options, win: bool, size: nat, c: Cpu, p: Cpu, body: Cpu, a: Cpu)
    requires o.Accepted() && Prepared(o, win, size, c, p) && BodyKeeps(o, win, size, p, body, c.Rsp()) && win
    requires var base := body.Rsp() + VecPos(o, win, size);
      && (forall x :: 6 <= x < 6 + VecSaveNum(o, win) ==>
        a.xmm[x] == (body.Load(base + 16 * (x - 6)), body.Load(base + 16 * (x - 6) + 8)))
      && (forall x :: 0 <= x < 6 || 6 + VecSaveNum(o, win) <= x < 32 ==> a.xmm[x] == body.xmm[x])
    ensures forall x :: 6 <= x < 16 ==> a.xmm[x] == c.xmm[x]
  {
    FrameIsAligned(o, win, size, 8);
  }

  /** Legacy SSE moves must not meet dirty upper halves: None if one does, otherwise whether they are dirty in the end. */
  function Uppers(code: seq<Instr>, dirty: bool): Option<bool> {
    if code == [] then Some(dirty)
    else
      match code[0]
      case Store(_, _, vex) => if dirty && !vex then None else Uppers(code[1..], dirty)
      case Load(_, _, vex) => if dirty && !vex then None else Uppers(code[1..], dirty)
      case Vzeroupper => Uppers(code[1..], false)
      case _ => Uppers(code[1..], dirty)
  }

  /** The instruction has the hint and the encoding that the options ask for, and is of a kind they allow. */
  predicate InStyle(o: Options, i: Instr) {
    match i
    case Push(_, ppx) => ppx == o.ppx
    case Pop(_, ppx) => ppx == o.ppx
    case Push2(_, _, ppx) => o.push2 && ppx == o.ppx
    case Pop2(_, _, ppx) => o.push2 && ppx == o.ppx
    case Store(_, _, vex) => vex == o.noVzeroupper
    case Load(_, _, vex) => vex == o.noVzeroupper
    case Vzeroupper => o.avx && !o.noVzeroupper
    case _ => true
  }

  predicate AllInStyle(o: Options, code: seq<Instr>) {
    forall i :: 0 <= i < |code| ==> InStyle(o, code[i])
  }

  lemma StyleConcat(o: Options, a: seq<Instr>, b: seq<Instr>)
    requires AllInStyle(o, a) && AllInStyle(o, b)
    ensures AllInStyle(o, a + b)
  {}

  lemma {:induction false} PushesInStyle(o: Options, saved: seq<Gpr>, i: nat)
    requires i <= |saved|
    ensures AllInStyle(o, Pushes(o, saved, i))
    decreases |saved| - i
  {
    if i < |saved| {
      PushesInStyle(o, saved, i + 1);
      if i + 2 <= |saved| { PushesInStyle(o, saved, i + 2); }
    }
  }

  lemma {:induction false} PopsInStyle(o: Options, saved: seq<Gpr>, n: nat)
    requires n <= |saved|
    ensures AllInStyle(o, Pops(o, saved, n))
  {
    if n > 0 {
      PopsInStyle(o, saved, n - 1);
      if n > 1 { PopsInStyle(o, saved, n - 2); }
    }
  }

  lemma {:induction false} MovesInStyle(o: Options, win: bool, size: nat, i: nat)
    requires i <= VecSaveNum(o, win)
    ensures AllInStyle(o, Stores(o, win, size, i)) && AllInStyle(o, Loads(o, win, size, i))
    decreases VecSaveNum(o, win) - i
  {
    hide VecPos, VecSaveNum;
    if i < VecSaveNum(o, win) { MovesInStyle(o, win, size, i + 1); }
  }

  lemma {:induction false} AlternatesInStyle(o: Options, win: bool, k: nat)
    requires k <= 4
    ensures AllInStyle(o, Alternates(o, win, k))
    decreases 4 - k
  {
    hide Slots;
    if k < 4 { AlternatesInStyle(o, win, k + 1); }
  }

  /** push2 and pop2 only with UsePUSH2, the store-forwarding hint exactly with UsePPX, vmovaps instead of movaps exactly
      with NoVzeroupper. */
  lemma FrameInStyle(o: Options, win: bool, size: nat, callRet: bool)
    ensures AllInStyle(o, Prolog(o, win, size)) && AllInStyle(o, Epilog(o, win, size, callRet))
  {
    hide SaveRegs, Pushes, Pops, Stores, Loads, Alternates, FrameSize;
    StartFits(o, win);
    var saved := SaveRegs(o, win);
    PushesInStyle(o, saved, B(o.rbp));
    PopsInStyle(o, saved, |saved|);
    MovesInStyle(o, win, size, 0);
    AlternatesInStyle(o, win, 0);
    StyleConcat(o, EarlyRbp(o), Pushes(o, saved, B(o.rbp)));
    StyleConcat(o, EarlyRbp(o) + Pushes(o, saved, B(o.rbp)), Reserve(o, win, size));
    StyleConcat(o, EarlyRbp(o) + Pushes(o, saved, B(o.rbp)) + Reserve(o, win, size), Stores(o, win, size, 0));
    StyleConcat(o, EarlyRbp(o) + Pushes(o, saved, B(o.rbp)) + Reserve(o, win, size) + Stores(o, win, size, 0), Alternates(o, win, 0));
    var clean := CleanUpper(o);
    StyleConcat(o, clean, Loads(o, win, size, 0));
    StyleConcat(o, clean + Loads(o, win, size, 0), Release(o, win, size));
    StyleConcat(o, clean + Loads(o, win, size, 0) + Release(o, win, size), Pops(o, saved, |saved|));
    StyleConcat(o, clean + Loads(o, win, size, 0) + Release(o, win, size) + Pops(o, saved, |saved|), Return(callRet));
  }

  lemma {:induction false} StyleKeepsUppers(o: Options, code: seq<Instr>, dirty: bool)
    requires AllInStyle(o, code) && (dirty ==> o.noVzeroupper)
    ensures Uppers(code, dirty) == Some(dirty)
    decreases |code|
  {
    if code != [] {
      assert AllInStyle(o, code[1..]) by { assert forall i :: 0 <= i < |code[1..]| ==> code[1..][i] == code[i + 1]; }
      assert InStyle(o, code[0]);
      StyleKeepsUppers(o, code[1..], dirty);
    }
  }

  /** No legacy SSE move meets dirty upper halves, if they are clean at entry or NoVzeroupper is given, and the body
      dirties them only with UseAVX; and with UseAVX they are clean in the end unless NoVzeroupper is given. */
  lemma NeverMixes(o: Options, win: bool, size: nat, callRet: bool, before: bool, after: bool)
    requires o.Accepted() && (before ==> o.noVzeroupper) && (after ==> o.avx)
    ensures Uppers(Prolog(o, win, size), before) == Some(before)
    ensures Uppers(Epilog(o, win, size, callRet), after) == Some(after && o.noVzeroupper)
  {
    hide Prolog, Epilog, AllInStyle, Uppers;
    FrameInStyle(o, win, size, callRet);
    StyleKeepsUppers(o, Prolog(o, win, size), before);
    if after && !o.noVzeroupper {
      CleanFirst(o, win, size, callRet);
      StyleKeepsUppers(o, Epilog(o, win, size, callRet), false);
    } else {
      StyleKeepsUppers(o, Epilog(o, win, size, callRet), after);
    }
  }

  lemma CleanFirst(o: Options, win: bool, size: nat, callRet: bool)
    requires o.avx && !o.noVzeroupper
    ensures Uppers(Epilog(o, win, size, callRet), true) == Uppers(Epilog(o, win, size, callRet), false)
  {
    hide Loads, Release, Pops, SaveRegs, Return;
    assert Epilog(o, win, size, callRet)[0] == Vzeroupper;
  }

  /** How many of the first k table entries are reserved. */
  function UsedIn(o: Options, win: bool, k: nat): nat {
    if win then
      B(o.rcx && k > 0) + B(o.rdx && k > 1) + B(o.rdi && k > 6) + B(o.rsi && k > 7) + B(o.rbp && k > 9)
    else
      B(o.rdi && k > 0) + B(o.rsi && k > 1) + B(o.rdx && k > 2) + B(o.rcx && k > 3) + B(o.rbp && k > 9)
  }

  lemma UsedStep(o: Options, win: bool, k: nat)
    requires k < 14
    ensures UsedIn(o, win, k + 1) == UsedIn(o, win, k) + B(o.IsUse(Table(win)[k]))
  {}

  lemma EpilogIs(o: Options, win: bool, size: nat, callRet: bool, before: seq<Instr>)
    ensures before + CleanUpper(o) + Loads(o, win, size, 0) + Release(o, win, size)
            + Pops(o, SaveRegs(o, win), |SaveRegs(o, win)|) + Return(callRet)
         == before + Epilog(o, win, size, callRet)
  {
    hide SaveRegs, CleanUpper, Loads, Release, Pops, Return;
  }

  class StackFrame {
    const win: bool
    const o: Options
    const size: nat
    const saveRegs: array<Gpr>
    const pTbl: array<Gpr>
    const tTbl: array<Gpr>
    var accepted: bool
    var saveNum: nat
    var reserved: nat
    var vecSaveNum: nat
    var vecPos: nat
    var code: seq<Instr>

    /** The fields are those of the frame for o: what close() relies on, and the registers handed out. */
    ghost predicate Built()
      reads this, saveRegs, pTbl, tTbl
    {
      && o.Accepted() && saveNum <= saveRegs.Length && saveRegs[..saveNum] == SaveRegs(o, win)
      && reserved == FrameSize(o, win, size) && vecSaveNum == VecSaveNum(o, win) && vecPos == VecPos(o, win, size)
      && o.pNum <= pTbl.Length && o.tNum <= tTbl.Length && pTbl[..o.pNum] + tTbl[..o.tNum] == Given(o, win)
    }

    constructor (win: bool, pNum: int, tNum: bv32, size: nat)
      ensures this.win == win && this.o == Decode(pNum, tNum) && this.size == size
      ensures accepted <==> o.Accepted()
      ensures accepted ==> Built() && code == Prolog(o, win, size)
      ensures !accepted ==> code == []
    {
      this.win, this.o, this.size, this.accepted := win, Decode(pNum, tNum), size, false;
      saveRegs, pTbl, tTbl := new Gpr[14 - NoSaveNum(win) + 2](_ => 0), new Gpr[4](_ => 0), new Gpr[14](_ => 0);
      saveNum, reserved, vecSaveNum, vecPos, code := 0, 0, 0, 0, [];
      new;
      hide Decode, SaveRegs, Saved, Given, Pushes, Stores, Alternates, Reserve, FrameSize, EarlyRbp, VecSaveNum, VecPos;
      var useNum;
      accepted, useNum := Check();
      if accepted { Build(useNum); }
    }

    method Build(useNum: nat)
      requires o.Accepted() && useNum == o.UseNum() && vecSaveNum == VecSaveNum(o, win)
      requires saveNum == 0 && code == [] && vecPos == 0 && reserved == 0
      requires saveRegs.Length == 14 - NoSaveNum(win) + 2 && pTbl.Length == 4 && tTbl.Length == 14
      requires saveRegs != pTbl && saveRegs != tTbl && pTbl != tTbl
      modifies this`saveNum, this`reserved, this`vecPos, this`code, saveRegs, pTbl, tTbl
      ensures Built() && code == Prolog(o, win, size)
    {
      hide SaveRegs, Saved, Given, Pushes, Stores, Alternates, Reserve, FrameSize, EarlyRbp, VecSaveNum, VecPos;
      Save(useNum);
      Locals();
      Assign();
      Replace();
    }

    /** The errors of the constructor, and how many xmm registers are to be saved. */
    method Check() returns (ok: bool, useNum: nat)
      modifies this`vecSaveNum
      ensures ok <==> o.Accepted()
      ensures ok ==> vecSaveNum == VecSaveNum(o, win) && useNum == o.UseNum()
    {
      vecSaveNum, useNum := 0, 0;
      if o.pNum < 0 || o.pNum > 4 || o.tNum < 0 || (o.sse && o.avx) || (o.noVzeroupper && !(o.avx && !o.sse)) {
        return false, 0;
      }
      if !o.sse && !o.avx {
        if o.vecNum > 0 { return false, 0; }
      } else {
        if o.vecNum > (if o.avx then 32 else 16) { return false, 0; }
        if win && o.vecNum > 6 { vecSaveNum := (if o.vecNum < 16 then o.vecNum else 16) - 6; }
      }
      useNum := CountUse();
      ok := o.pNum + o.tNum + useNum <= 14;
    }

    /** Replace reserved argument registers with their alternatives. */
    method Replace()
      modifies this`code
      ensures code == old(code) + Alternates(o, win, 0)
    {
      hide Slots, Alternate;
      for i := 0 to 4
        invariant code + Alternates(o, win, i) == old(code) + Alternates(o, win, 0)
      {
        ghost var before := code;
        var rp := Slots(win)[i];
        ReplaceOne(rp);
        assert code + Alternates(o, win, i + 1) == before + (Alternate(o, rp) + Alternates(o, win, i + 1));
      }
    }

    method ReplaceOne(rp: Slot)
      requires rp.alt < 32
      modifies this`code
      ensures code == old(code) + Alternate(o, rp)
    {
      if o.IsUse(rp.target) && rp.pos < o.pNum && rp.alt >= 0 {
        code := code + [Mov(rp.alt, rp.target)];
      }
    }

    method CountUse() returns (useNum: nat)
      ensures useNum == o.UseNum()
    {
      var callerUseNum, calleeUseNum := 0, 0;
      for i := 0 to 14
        invariant callerUseNum + calleeUseNum == UsedIn(o, win, i)
      {
        UsedStep(o, win, i);
        if o.IsUse(Table(win)[i]) {
          if i < NoSaveNum(win) { callerUseNum := callerUseNum + 1; } else { calleeUseNum := calleeUseNum + 1; }
        }
      }
      return callerUseNum + calleeUseNum;
    }

    /** Fill saveRegs_ and push it, rbp before everything else. */
    method Save(useNum: nat)
      requires o.Accepted() && useNum == o.UseNum() && saveNum == 0 && code == []
      requires saveRegs.Length == 14 - NoSaveNum(win) + 2
      modifies this`saveNum, this`code, saveRegs
      ensures saveNum <= saveRegs.Length && saveRegs[..saveNum] == SaveRegs(o, win)
      ensures B(o.rbp) <= |SaveRegs(o, win)| && code == EarlyRbp(o) + Pushes(o, SaveRegs(o, win), B(o.rbp))
    {
      hide SaveRegs, Pushes, Options.IsUse, Callee, Options.Accepted;
      var baseSaveNum := if o.pNum + o.tNum + useNum - NoSaveNum(win) > 0 then o.pNum + o.tNum + useNum - NoSaveNum(win) else 0;
      var pushedRbp := false;
      if o.rbp {
        code := code + [Push(RBP, o.ppx)];
        saveRegs[saveNum] := RBP;
        saveNum := saveNum + 1;
        pushedRbp := true;
        if o.framePointer { code := code + [Mov(RBP, RSP)]; }
      }
      if o.r30r31 {
        saveRegs[saveNum] := R30;
        saveRegs[saveNum + 1] := R31;
        saveNum := saveNum + 2;
      }
      Fill(baseSaveNum, pushedRbp);
      PushRest(pushedRbp);
    }

    method PushRest(pushedRbp: bool)
      requires pushedRbp == o.rbp && saveNum <= saveRegs.Length && saveRegs[..saveNum] == SaveRegs(o, win)
      modifies this`code
      ensures B(o.rbp) <= |SaveRegs(o, win)| && code == old(code) + Pushes(o, SaveRegs(o, win), B(o.rbp))
    {
      StartFits(o, win);
      hide SaveRegs;
      var i := if pushedRbp then 1 else 0;
      ghost var saved := SaveRegs(o, win);
      while i < saveNum
        invariant B(o.rbp) <= i <= saveNum && saveNum == |saved| && saveRegs[..saveNum] == saved
        invariant code + Pushes(o, saved, i) == old(code) + Pushes(o, saved, B(o.rbp))
        modifies this`code
      {
        assert saveRegs[i] == saved[i];
        if o.push2 && i % 2 == 1 && i + 1 < saveNum {
          assert saveRegs[i + 1] == saved[i + 1];
          code := code + [Push2(saveRegs[i], saveRegs[i + 1], o.ppx)];
          i := i + 1;
        } else {
          code := code + [Push(saveRegs[i], o.ppx)];
        }
        i := i + 1;
      }
    }

    method Fill(baseSaveNum: nat, pushedRbp: bool)
      requires baseSaveNum == BaseSaveNum(o, win) && pushedRbp == o.rbp
      requires saveRegs.Length == 14 - NoSaveNum(win) + 2
      requires saveNum <= saveRegs.Length && saveRegs[..saveNum] == Saved(o, win, 0)
      modifies this`saveNum, saveRegs
      ensures saveNum <= saveRegs.Length && saveRegs[..saveNum] == SaveRegs(o, win)
    {
      hide Saved, Options.IsUse, Callee;
      for i := 0 to 14 - NoSaveNum(win)
        invariant saveNum <= saveRegs.Length && saveRegs[..saveNum] == Saved(o, win, i)
      {
        var r := Callee(win, i);
        SavedStep(o, win, i);
        if i < baseSaveNum || o.IsUse(r) {
          if pushedRbp && r == RBP { continue; }
          SavedDistinct(o, win, i + 1);
          saveRegs[saveNum] := r;
          saveNum := saveNum + 1;
        }
      }
    }

    /** Make room for the local area and the vector registers, and save those. */
    method Locals()
      requires saveNum == |SaveRegs(o, win)| && vecSaveNum == VecSaveNum(o, win) && vecPos == 0 && reserved == 0
      modifies this`reserved, this`vecPos, this`code
      ensures reserved == FrameSize(o, win, size) && vecPos == VecPos(o, win, size)
      ensures code == old(code) + Reserve(o, win, size) + Stores(o, win, size, 0)
    {
      assert vecSaveNum <= 10;
      hide SaveRegs, VecSaveNum;
      if vecSaveNum > 0 {
        vecPos := (size + 15) / 16 * 16;
        reserved := vecPos + vecSaveNum * 16;
        if saveNum % 2 == 0 { reserved := reserved + 8; }
        code := code + [SubRsp(reserved)];
        for i := 0 to vecSaveNum
          invariant code + Stores(o, win, size, i) == old(code) + Reserve(o, win, size) + Stores(o, win, size, 0)
          modifies this`code
        {
          code := code + [Instr.Store(vecPos + i * 16, 6 + i, o.noVzeroupper)];
        }
      } else {
        reserved := (size + 7) / 8;
        if reserved > 0 && reserved % 2 == saveNum % 2 { reserved := reserved + 1; }
        reserved := reserved * 8;
        if reserved > 0 { code := code + [SubRsp(reserved)]; }
      }
    }

    /** getRegIdx: the next register of the table that may be handed out. */
    method GetRegIdx(pos: nat) returns (r: Gpr, next: nat)
      requires o.Accepted() && pos <= 14 && |Picks(o, win, pos)| < o.pNum + o.tNum
      ensures pos < next <= 14 && Picks(o, win, next) == Picks(o, win, pos) + [r]
    {
      next := pos;
      label Scan:
      while true
        invariant pos <= next <= 14 && Picks(o, win, next) == Picks(o, win, pos)
        decreases 14 - next
      {
        ScanStays(o, win, next);
        r := Table(win)[next];
        next := next + 1;
        for i := 0 to 4
          invariant PickFrom(o, r, Slots(win), i) == Pick(o, win, next - 1)
        {
          var slot := Slots(win)[i];
          if !o.IsUse(slot.target) { continue; }
          if r == slot.alt { continue Scan; }
          if r == slot.target {
            if slot.alt >= 0 { return slot.alt, next; }
            continue Scan;
          }
        }
        if !o.IsUse(r) { return; }
      }
    }

    method Assign()
      requires o.Accepted() && pTbl.Length == 4 && tTbl.Length == 14 && pTbl != tTbl
      modifies pTbl, tTbl
      ensures pTbl[..o.pNum] + tTbl[..o.tNum] == Given(o, win)
    {
      var pos := 0;
      for i := 0 to o.pNum
        invariant pos <= 14 && Picks(o, win, pos) == pTbl[..i]
      {
        var r;
        r, pos := GetRegIdx(pos);
        pTbl[i] := r;
      }
      for i := 0 to o.tNum
        invariant pos <= 14 && Picks(o, win, pos) == pTbl[..o.pNum] + tTbl[..i]
      {
        var r;
        r, pos := GetRegIdx(pos);
        tTbl[i] := r;
      }
      PicksGrow(o, win, pos, 14);
    }

    /** close(). */
    method Close(callRet: bool)
      requires Built()
      modifies this`code
      ensures code == old(code) + Epilog(o, win, size, callRet)
    {
      assert vecSaveNum <= 10;
      hide SaveRegs, FrameSize, VecPos, VecSaveNum;
      if o.avx && !o.noVzeroupper { code := code + [Vzeroupper]; }
      for i := 0 to vecSaveNum
        invariant code + Loads(o, win, size, i) == old(code) + CleanUpper(o) + Loads(o, win, size, 0)
      {
        code := code + [Instr.Load(6 + i, vecPos + i * 16, o.noVzeroupper)];
      }
      if reserved > 0 { code := code + [AddRsp(reserved)]; }
      ghost var before := code;
      PopAll();
      if callRet { code := code + [Ret]; }
      assert before == old(code) + CleanUpper(o) + Loads(o, win, size, 0) + Release(o, win, size);
      EpilogIs(o, win, size, callRet, old(code));
    }

    method PopAll()
      requires saveNum <= saveRegs.Length && saveRegs[..saveNum] == SaveRegs(o, win)
      modifies this`code
      ensures code == old(code) + Pops(o, SaveRegs(o, win), |SaveRegs(o, win)|)
    {
      hide SaveRegs;
      ghost var saved := SaveRegs(o, win);
      var start := if o.rbp then 1 else 0;
      var i := saveNum - 1;
      while i >= 0
        invariant -1 <= i < saveNum && code + Pops(o, saved, i + 1) == old(code) + Pops(o, saved, |saved|)
      {
        assert saveRegs[i] == saved[i];
        if o.push2 && i % 2 == 0 && i - 1 >= start {
          assert saveRegs[i - 1] == saved[i - 1];
          code := code + [Pop2(saveRegs[i], saveRegs[i - 1], o.ppx)];
          i := i - 1;
        } else {
          code := code + [Pop(saveRegs[i], o.ppx)];
        }
        i := i - 1;
      }
    }
  }
}
