/** xbyak/xbyak_util.h: the two CpuMask classes, method by method, against CpuMasks and CpuMaskTexts. */
module CpuMaskClasses {
  import Arith
  import opened Bytes
  import opened CpuMasks
  import opened CpuMaskTexts
  import opened CpuText
  import opened Packing

  class CpuMask {
    const N: nat
    const bitN: nat
    var a: nat
    var n: nat
    var range: bool

    ghost function Abs(): Mask
      reads this
    {
      Mask(Slots(bitN, a, N), n, range)
    }

    ghost predicate Valid()
      reads this
    {
      && Config(N, Arith.Pow2(bitN)) && bitN > 0
      && a < Weight(bitN, N) && Formed(Abs(), N)
    }

    constructor (N: nat, bitN: nat)
      requires Config(N, Arith.Pow2(bitN)) && bitN > 0
      ensures this.N == N && this.bitN == bitN && Valid() && Abs() == Empty(N)
    {
      this.N, this.bitN := N, bitN;
      a, n, range := Arith.Pow2(bitN), 0, false;
      SlotsOfMark(bitN, N);
    }

    method Clear()
      requires Valid()
      modifies this
      ensures Valid() && Abs() == Empty(N)
    {
      a, n, range := Arith.Pow2(bitN), 0, false;
      SlotsOfMark(bitN, N);
    }

    method IsEmpty() returns (b: bool)
      requires Valid()
      ensures b <==> Abs() == Empty(N)
    {
      b := a == Arith.Pow2(bitN) && n == 0 && !range;
      SlotsOfMark(bitN, N);
      hide Arith.Pow2, Weight, Slots;
      if Abs() == Empty(N) { SlotsDetermine(bitN, a, Arith.Pow2(bitN), N); }
    }

    method SetA(idx: nat, v: nat)
      requires Config(N, Arith.Pow2(bitN)) && a < Weight(bitN, N) && idx < N && v < Arith.Pow2(bitN)
      modifies this`a
      ensures a < Weight(bitN, N) && Slots(bitN, a, N) == old(Slots(bitN, a, N))[idx := v]
    {
      SetIs(bitN, a, N, idx, v);
      hide Arith.Pow2, Weight, Slots;
      a := SetSlot(bitN, a, idx, v);
    }

    method GetA(idx: nat) returns (v: nat)
      requires idx < N
      ensures v == Abs().s[idx] && v < Arith.Pow2(bitN)
    {
      GetIs(bitN, a, N, idx);
      hide Arith.Pow2, Weight, Slots;
      v := GetSlot(bitN, a, idx);
    }

    /** append: as the specification, and a refused element changes nothing. */
    method Append(v: nat) returns (ok: bool)
      requires Valid()
      modifies this
      ensures Valid()
      ensures var t := CpuMasks.Append(old(Abs()), N, Arith.Pow2(bitN), v);
        ok == t.Some? && Abs() == (if ok then t.value else old(Abs()))
    {
      hide Arith.Pow2, Weight, Slots;
      if v >= Arith.Pow2(bitN) { return false; }
      var isEmpty := IsEmpty();
      if isEmpty {
        a, n := v, 0;
        SlotsOfSmall(bitN, v, N);
        return true;
      }
      if !range {
        var prev := GetA(n);
        if v <= prev { return false; }
        if n == 0 && prev + 1 == v {
          SetA(1, 1);
          range, n := true, 1;
          return true;
        }
        if n >= N - 1 { return false; }
        n := n + 1;
        SetA(n, v);
        return true;
      }
      var len := GetA(n);
      var first := GetA(n - 1);
      var prev := first + len;
      if prev >= v { return false; }
      if prev + 1 == v {
        SetA(n, len + 1);
        return true;
      }
      if n >= N - 1 { return false; }
      SetA(n + 1, v);
      n := n + 2;
      return true;
    }

    method AppendRange(x: nat, y: nat) returns (ok: bool)
      requires Valid()
      modifies this
      ensures Valid()
      ensures var t := CpuMaskTexts.AppendRange(old(Abs()), N, Arith.Pow2(bitN), x, y);
        ok == t.Some? && Abs() == (if ok then t.value else old(Abs()))
    {
      hide Arith.Pow2, Weight, Slots;
      var isEmpty := IsEmpty();
      if (isEmpty || (range && n < N - 1)) && x <= y && y < Arith.Pow2(bitN) {
        range := true;
        n := n + if n == 0 then 1 else 2;
        SetA(n - 1, x);
        SetA(n, y - x);
        return true;
      }
      return false;
    }

    /** size. */
    method Size() returns (size: nat)
      requires Valid()
      ensures size == |View(Abs(), N)|
    {
      hide Arith.Pow2, Weight, Slots, Runs, Span, Unused;
      RunsNothing(Abs().s);
      var isEmpty := IsEmpty();
      if isEmpty { return 0; }
      if !range { return n + 1; }
      size := 0;
      var i := 1;
      while i <= n
        invariant i % 2 == 1 && 1 <= i <= n + 2 && size == |Runs(Abs().s, (i - 1) / 2)|
      {
        var len := GetA(i);
        size := size + len + 1;
        RunsStep(Abs().s, (i + 1) / 2);
        i := i + 2;
      }
    }

    /** get, the iterator's dereference. */
    method Get(idx: nat) returns (v: nat)
      requires Valid() && idx < |View(Abs(), N)|
      ensures v == View(Abs(), N)[idx]
    {
      hide Arith.Pow2, Weight, Slots;
      if !range { v := GetA(idx); } else { v := GetInRange(idx); }
    }

    method GetInRange(idx: nat) returns (v: nat)
      requires Valid() && range && idx < |Runs(Abs().s, (n + 1) / 2)|
      ensures v == Runs(Abs().s, (n + 1) / 2)[idx]
    {
      hide Arith.Pow2, Weight, Slots, Runs;
      ghost var s := Abs().s;
      RunsNothing(s);
      var m := 0;
      var i := 1;
      while i <= n
        invariant i % 2 == 1 && 1 <= i <= n + 2 && m == |Runs(s, (i - 1) / 2)| && m <= idx
      {
        var len := GetA(i);
        RunsStep(s, (i + 1) / 2);
        if idx < m + len + 1 {
          var first := GetA(i - 1);
          RunsPrefix(s, (i + 1) / 2, (n + 1) / 2);
          return first + (idx - m);
        }
        m := m + len + 1;
        i := i + 2;
      }
      assert false;
    }

    /** to_u64. */
    method ToU64() returns (u: nat)
      ensures u == CpuMasks.ToU64(a, n, range, N, bitN)
    {
      u := a + Shl(n, N * bitN) + Shl(if range then 1 else 0, N * bitN + 3);
    }

    /** getStr. */
    method GetStr() returns (s: string)
      requires Valid()
      ensures s == Print(Items(Abs(), N))
    {
      hide Arith.Pow2, Weight, Slots, Print;
      s := "";
      PrintNone();
      var isEmpty := IsEmpty();
      if isEmpty { return; }
      if !range { s := GetValues(); } else { s := GetIntervals(); }
    }

    method GetValues() returns (s: string)
      requires Valid()
      ensures s == Print(Singles(Abs().s[..n + 1]))
    {
      hide Arith.Pow2, Weight, Slots, Print;
      ghost var slots := Abs().s;
      s := "";
      PrintNone();
      for i := 0 to n + 1
        invariant s == Print(Singles(slots[..i])) && (s == "" <==> i == 0)
      {
        var v := GetA(i);
        SinglesStep(slots, i);
        hide Singles;
        if s != "" { s := s + ","; }
        s := s + Text(v);
      }
    }

    method GetIntervals() returns (s: string)
      requires Valid() && range
      ensures s == Print(Pairs(Abs().s, (n + 1) / 2))
    {
      hide Arith.Pow2, Weight, Slots, Print, Pairs;
      ghost var slots := Abs().s;
      s := "";
      PrintNone();
      PairsNone(slots);
      var i := 0;
      while i <= n
        invariant i % 2 == 0 && i <= n + 1 && s == Print(Pairs(slots, i / 2)) && (s == "" <==> i == 0)
      {
        var v := GetA(i);
        var len := GetA(i + 1);
        PairsStep(slots, i / 2 + 1);
        hide Text;
        if s != "" { s := s + ","; }
        var item := Text(v);
        if len > 0 { item := item + ("-" + Text(v + len)); } else { item := item + ""; }
        s := s + item;
        i := i + 2;
      }
    }

    /** setStr: true exactly if the text parses and every item is accepted in turn. */
    method SetStr(str: string) returns (ok: bool)
      requires Valid()
      modifies this
      ensures Valid()
      ensures var items := Parse(str, 0);
        ok == (items.Some? && Apply(old(Abs()), N, Arith.Pow2(bitN), items.value).Some?)
      ensures ok ==> Apply(old(Abs()), N, Arith.Pow2(bitN), Parse(str, 0).value) == Some(Abs())
    {
      hide Arith.Pow2, Weight, Slots, Parse, Apply, Config;
      var p := 0;
      ghost var done: seq<Item> := [];
      ghost var start, B := Abs(), Arith.Pow2(bitN);
      ApplyNone(start, N, B);
      ContinuesFirst(Parse(str, 0));
      while p < |str|
        invariant p <= |str| && Valid()
        invariant Apply(start, N, B, done) == Some(Abs())
        invariant Continues(Parse(str, 0), done, Parse(str, p))
        decreases |str| - p
      {
        var x, e;
        ok, x, e := ReadItem(str, p);
        if !ok { return; }
        ok := Put(x);
        ApplyMore(start, N, B, done, x);
        Goes(str, p, done, x, e, start, N, B);
        if !ok { return; }
        done := done + [x];
        p := e;
      }
      ok := true;
      ParseEnd(str);
      assert done + [] == done;
    }

    method Put(x: Item) returns (ok: bool)
      requires Valid()
      modifies this
      ensures Valid()
      ensures var t := match x
                       case Single(v) => CpuMasks.Append(old(Abs()), N, Arith.Pow2(bitN), v)
                       case Range(b, c) => CpuMaskTexts.AppendRange(old(Abs()), N, Arith.Pow2(bitN), b, c);
        ok == t.Some? && Abs() == (if ok then t.value else old(Abs()))
    {
      match x
      case Single(v) => ok := Append(v);
      case Range(b, c) => ok := AppendRange(b, c);
    }
  }

  /** The part of setStr that reads one item at position p, with the comma before it. */
  method ReadItem(str: string, p: nat) returns (ok: bool, x: Item, e: nat)
    requires p < |str|
    ensures !ok ==> Parse(str, p).None?
    ensures ok ==> p < e <= |str|
    ensures ok ==> Reads(str, p, x, e)
  {
    hide Parse, StrToUl, Reads;
    ParseStep(str, p);
    x, e := Single(0), p;
    var q := p;
    if q != 0 {
      if str[q] != ',' { return false, x, e; }
      q := q + 1;
    }
    var (v, f) := StrToUl(str, q);
    if f == q { return false, x, e; }
    if f < |str| && str[f] == '-' {
      var (w, g) := StrToUl(str, f + 1);
      if g == f + 1 { return false, x, e; }
      return true, Range(v, w), g;
    }
    return true, Single(v), f;
  }

  /** all is what was done, followed by what is still to come. */
  predicate Continues(all: Option<seq<Item>>, done: seq<Item>, rest: Option<seq<Item>>) {
    all == if rest.Some? then Some(done + rest.value) else None
  }

  lemma RunsStep(s: seq<nat>, k: nat)
    requires 0 < k && 2 * k <= |s|
    ensures Runs(s, k) == Runs(s, k - 1) + Span(s[2 * k - 2], s[2 * k - 1])
  {}

  lemma {:induction false} RunsPrefix(s: seq<nat>, k: nat, l: nat)
    requires k <= l && 2 * l <= |s|
    ensures Runs(s, k) <= Runs(s, l)
    decreases l - k
  {
    if k < l { RunsPrefix(s, k, l - 1); }
  }

  lemma PrintNone()
    ensures Print([]) == ""
  {}

  lemma SinglesStep(s: seq<nat>, i: nat)
    requires i < |s|
    ensures Print(Singles(s[..i + 1])) == Print(Singles(s[..i])) + (if i == 0 then "" else ",") + Text(s[i])
  {
    var w := s[..i + 1];
    assert w[..i] == s[..i];
    PrintMore(Singles(s[..i]), Single(s[i]));
    hide Print;
  }

  lemma PairText(v: nat, len: nat)
    ensures PrintItem(Pair(v, len)) == Text(v) + if len > 0 then "-" + Text(v + len) else ""
  {
    hide Text;
    assert Text(v) + "" == Text(v);
    assert Text(v) + "-" + Text(v + len) == Text(v) + ("-" + Text(v + len));
  }

  lemma PairsStep(s: seq<nat>, k: nat)
    requires 0 < k && 2 * k <= |s|
    ensures var v, len := s[2 * k - 2], s[2 * k - 1];
      Print(Pairs(s, k))
      == Print(Pairs(s, k - 1)) + (if k == 1 then "" else ",") + (Text(v) + if len > 0 then "-" + Text(v + len) else "")
  {
    hide Print, PrintItem, Pairs, Pair, Text;
    PairsIs(s, k);
    PrintMore(Pairs(s, k - 1), Pair(s[2 * k - 2], s[2 * k - 1]));
    PairText(s[2 * k - 2], s[2 * k - 1]);
  }

  lemma ContinuesFirst(all: Option<seq<Item>>)
    ensures Continues(all, [], all)
  {
    if all.Some? { assert [] + all.value == all.value; }
  }

  /** One item read from position p. */
  lemma Goes(str: string, p: nat, done: seq<Item>, x: Item, e: nat, start: Mask, N: nat, B: nat)
    requires p < |str| && e <= |str| && Config(N, B) && Formed(start, N)
    requires Continues(Parse(str, 0), done, Parse(str, p))
    requires Reads(str, p, x, e)
    ensures Continues(Parse(str, 0), done + [x], Parse(str, e))
    ensures Apply(start, N, B, done + [x]).None? && Parse(str, 0).Some? ==> Apply(start, N, B, Parse(str, 0).value).None?
  {
    hide Parse, Apply, Config;
    if Parse(str, e).Some? {
      var rest := Parse(str, e).value;
      assert done + ([x] + rest) == done + [x] + rest;
      if Apply(start, N, B, done + [x] + rest).Some? { ApplyPrefix(start, N, B, done + [x], rest); }
    }
  }

  /** operator== of the compact form, which compares to_u64, is equality of the sets. */
  lemma EqualityIsSetEquality(a1: nat, n1: nat, r1: bool, a2: nat, n2: nat, r2: bool, N: nat, bitN: nat)
    requires Config(N, Arith.Pow2(bitN)) && a1 < Weight(bitN, N) && a2 < Weight(bitN, N)
    requires Canonical(Mask(Slots(bitN, a1, N), n1, r1), N, Arith.Pow2(bitN))
    requires Canonical(Mask(Slots(bitN, a2, N), n2, r2), N, Arith.Pow2(bitN))
    ensures ToU64(a1, n1, r1, N, bitN) == ToU64(a2, n2, r2, N, bitN) <==>
      View(Mask(Slots(bitN, a1, N), n1, r1), N) == View(Mask(Slots(bitN, a2, N), n2, r2), N)
  {
    ToU64Determines(a1, n1, r1, a2, n2, r2, N, bitN);
    var m1, m2 := Mask(Slots(bitN, a1, N), n1, r1), Mask(Slots(bitN, a2, N), n2, r2);
    hide Canonical, View, ToU64, Slots, Weight, Arith.Pow2;
    if View(m1, N) == View(m2, N) {
      CanonicalIsUnique(m1, m2, N, Arith.Pow2(bitN));
      SlotsDetermine(bitN, a1, a2, N);
    }
  }

  /** Every mask that append builds from the empty one, through the packed fields, stays one that the theorems about
      canonical masks speak of. */
  method BuildFrom(w: seq<nat>, N: nat, bitN: nat) returns (m: CpuMask, ok: bool)
    requires Config(N, Arith.Pow2(bitN)) && bitN > 0
    ensures ok <==> Holdable(w, N, Arith.Pow2(bitN))
    ensures m.Valid() && m.N == N && (ok ==> Canonical(m.Abs(), N, Arith.Pow2(bitN)) && View(m.Abs(), N) == w)
  {
    hide Arith.Pow2, Holdable, Canonical, View, Config;
    m := new CpuMask(N, bitN);
    ghost var B := Arith.Pow2(bitN);
    BuildNone(N, B);
    for i := 0 to |w|
      invariant m.Valid() && m.N == N && m.bitN == bitN && fresh(m)
      invariant Build(w[..i], N, B) == Some(m.Abs())
    {
      ok := m.Append(w[i]);
      assert w[..i + 1][..i] == w[..i];
      BuildStep(w[..i + 1], N, B);
      if !ok {
        BuildPrefix(w, i + 1, N, B);
        BuildAccepts(w, N, B);
        return;
      }
    }
    ok := true;
    assert w[..|w|] == w;
    BuildAccepts(w, N, B);
  }

  lemma BuildNone(N: nat, B: nat)
    requires Config(N, B)
    ensures Build([], N, B) == Some(Empty(N))
  {}

  lemma BuildStep(w: seq<nat>, N: nat, B: nat)
    requires Config(N, B) && w != []
    ensures var b := Build(w[..|w| - 1], N, B);
      Build(w, N, B) == if b.None? then None else Append(b.value, N, B, w[|w| - 1])
  {}

  lemma {:induction false} BuildPrefix(w: seq<nat>, k: nat, N: nat, B: nat)
    requires Config(N, B) && k <= |w| && Build(w[..k], N, B).None?
    ensures Build(w, N, B).None?
    decreases |w|
  {
    hide Append, Canonical, View;
    if k == |w| { assert w[..k] == w; }
    else {
      assert w[..|w| - 1][..k] == w[..k];
      BuildPrefix(w[..|w| - 1], k, N, B);
    }
  }

  /** The std::set version; indices holds the elements in increasing order. */
  class PlainCpuMask {
    const B: nat
    var indices: seq<nat>

    ghost predicate Valid()
      reads this
    {
      B <= 0x8000_0000 && Sorted(indices) && AllBelow(indices, B)
    }

    constructor (bits: nat)
      requires Arith.Pow2(bits) <= 0x8000_0000
      ensures Valid() && B == Arith.Pow2(bits) && indices == []
    {
      B, indices := Arith.Pow2(bits), [];
    }

    method Append(v: nat) returns (ok: bool)
      requires Valid()
      modifies this
      ensures Valid()
      ensures var t := SetAppend(old(indices), B, v); ok == t.Some? && indices == (if ok then t.value else old(indices))
    {
      if v >= B { return false; }
      if |indices| > 0 && indices[|indices| - 1] >= v { return false; }
      SortedMore(indices, v);
      indices := indices + [v];
      ok := true;
    }

    method AppendRange(a: nat, b: nat) returns (ok: bool)
      requires Valid()
      modifies this
      ensures Valid()
      ensures var t := SetAppendRange(old(indices), B, a, b); ok == t.Some? && (ok ==> indices == t.value)
    {
      if a > b { return false; }
      var x := a;
      ok := true;
      while x <= b
        invariant a <= x <= b + 1 && Valid() && ok
        invariant x <= b ==> SetAppendRange(old(indices), B, a, b) == SetAppendRange(indices, B, x, b)
        invariant x > b ==> SetAppendRange(old(indices), B, a, b) == Some(indices)
      {
        ok := Append(x);
        if !ok { return; }
        x := x + 1;
      }
    }

    method GetStr() returns (s: string)
      requires Valid()
      ensures s == Print(SetItems(indices))
    {
      hide Print, SetItems, Sorted;
      s := "";
      var inRange, prev := false, 0x8000_0000;
      PrintNone();
      SetItemsNone();
      ghost var init, a := [], 0;
      for i := 0 to |indices|
        invariant i == 0 ==> s == "" && !inRange && prev == 0x8000_0000 && SetItems([]) == [] && Print([]) == ""
        invariant i > 0 ==> prev == indices[i - 1] && SetItems(indices[..i]) == init + [if inRange then Range(a, prev) else Single(a)]
        invariant i > 0 ==> (!inRange ==> a == prev) && s == Print(init + [Single(a)]) + (if inRange then "-" else "")
      {
        var v := indices[i];
        assert indices[..i + 1] == indices[..i] + [v];
        if i > 0 { PrintSome(init, a); assert indices[..i][i - 1] == indices[i - 1]; }
        if inRange {
          if prev + 1 != v {
            SetItemsStarts(indices[..i], v);
            PrintRange(init, a, prev);
            PrintMore(init + [Range(a, prev)], Single(v));
            s := s + Text(prev);
            inRange := false;
            s := s + "," + Text(v);
            init, a := init + [Range(a, prev)], v;
          } else {
            SetItemsGoesOn(indices[..i], v, init, Range(a, prev));
          }
        } else {
          if prev + 1 == v {
            SetItemsGoesOn(indices[..i], v, init, Single(a));
            s := s + "-";
            inRange := true;
          } else {
            SetItemsStarts(indices[..i], v);
            if i > 0 { PrintMore(init + [Single(a)], Single(v)); } else { PrintMore([], Single(v)); }
            if s != "" { s := s + ","; }
            s := s + Text(v);
            init, a := if i == 0 then [] else init + [Single(a)], v;
          }
        }
        prev := v;
      }
      assert indices[..|indices|] == indices;
      if inRange {
        PrintRange(init, a, prev);
        s := s + Text(prev);
      }
    }
  }

  lemma SetItemsNone()
    ensures SetItems([]) == []
  {}

  lemma PrintSome(items: seq<Item>, a: nat)
    ensures Print(items + [Single(a)]) != ""
  {
    PrintMore(items, Single(a));
  }

  lemma PrintRange(items: seq<Item>, a: nat, b: nat)
    ensures Print(items + [Range(a, b)]) == Print(items + [Single(a)]) + "-" + Text(b)
  {
    PrintMore(items, Range(a, b));
    PrintMore(items, Single(a));
    hide Print, Text;
  }
}
