/** xbyak/xbyak_util.h: printing a CpuMask and reading it back, in the compact and in the std::set version. */
module CpuMaskTexts {
  import opened Bytes
  import opened CpuMasks
  import opened CpuText

  /** appendRange of the compact form. */
  function AppendRange(m: Mask, N: nat, B: nat, a: nat, b: nat): Option<Mask>
    requires Config(N, B) && |m.s| == N && m.n < N && (m.range ==> m.n % 2 == 1)
  {
    if (m == Empty(N) || (m.range && m.n < N - 1)) && a <= b < B then
      var n := if m.n == 0 then 1 else m.n + 2;
      Some(Mask(m.s[n - 1 := a][n := b - a], n, true))
    else None
  }

  /** It takes a range into an empty mask and behind intervals, while there is room, and adds its span. */
  lemma RangeAppends(m: Mask, N: nat, B: nat, a: nat, b: nat)
    requires Config(N, B) && Canonical(m, N, B)
    ensures m.range ==> m.n % 2 == 1
    ensures var r := AppendRange(m, N, B, a, b);
      && (r.Some? <==> a <= b < B && (m == Empty(N) || (m.range && (m.n + 1) / 2 < N / 2)))
      && (r.Some? ==> View(r.value, N) == (if m == Empty(N) then [] else View(m, N)) + Span(a, b - a))
  {
    hide Gaps, Runs, Unused, DiscreteOk;
    assert m.range ==> m.n % 2 == 1;
    var r := AppendRange(m, N, B, a, b);
    if r.Some? {
      var k := if m == Empty(N) then 0 else (m.n + 1) / 2;
      RangeAdded(m, N, a, b, k, r.value);
      hide AppendRange, Canonical;
      RunsFrame(m.s, r.value.s, k, B);
      GapsStep(r.value.s, k + 1, B);
      NoRuns(m.s);
    }
  }

  lemma NoRuns(s: seq<nat>)
    ensures Runs(s, 0) == []
  {}

  lemma RangeAdded(m: Mask, N: nat, a: nat, b: nat, k: nat, r: Mask)
    requires N >= 2 && |m.s| == N && m.n < N && a <= b && 2 * k + 1 < N && r.range && (m == Empty(N) || m.range)
    requires (if m == Empty(N) then k == 0 else m.n == 2 * k - 1) && r == Mask(m.s[2 * k := a][2 * k + 1 := b - a], 2 * k + 1, true)
    ensures r != Empty(N) && r.s[..2 * k] == m.s[..2 * k] && r.s[2 * k] == a && r.s[2 * k + 1] == b - a
  {}

  /** appendRange of the std::set version: one append after the other. */
  function SetAppendRange(view: seq<nat>, B: nat, a: nat, b: nat): Option<seq<nat>>
    decreases b - a
  {
    if a > b then None
    else
      var w :- SetAppend(view, B, a);
      if a == b then Some(w) else SetAppendRange(w, B, a + 1, b)
  }

  predicate Formed(m: Mask, N: nat) {
    |m.s| == N && m.n < N && (m.range ==> m.n % 2 == 1)
  }

  function Apply(m: Mask, N: nat, B: nat, items: seq<Item>): (r: Option<Mask>)
    requires Config(N, B) && Formed(m, N)
    ensures r.Some? ==> Formed(r.value, N)
  {
    if items == [] then Some(m)
    else
      var t :- Apply(m, N, B, items[..|items| - 1]);
      match items[|items| - 1]
      case Single(v) => Append(t, N, B, v)
      case Range(a, b) => AppendRange(t, N, B, a, b)
  }

  function SetApply(view: seq<nat>, B: nat, items: seq<Item>): Option<seq<nat>> {
    if items == [] then Some(view)
    else
      var t :- SetApply(view, B, items[..|items| - 1]);
      match items[|items| - 1]
      case Single(v) => SetAppend(t, B, v)
      case Range(a, b) => SetAppendRange(t, B, a, b)
  }

  /** What getStr of the compact form prints. */
  function Items(m: Mask, N: nat): seq<Item>
    requires N >= 2 && Formed(m, N)
  {
    if m == Empty(N) then [] else if m.range then Pairs(m.s, (m.n + 1) / 2) else Singles(m.s[..m.n + 1])
  }

  function Singles(w: seq<nat>): seq<Item> {
    if w == [] then [] else Singles(w[..|w| - 1]) + [Single(w[|w| - 1])]
  }

  function Pair(v: nat, len: nat): Item {
    if len > 0 then Range(v, v + len) else Single(v)
  }

  function Pairs(s: seq<nat>, k: nat): seq<Item>
    requires 2 * k <= |s|
  {
    if k == 0 then [] else Pairs(s, k - 1) + [Pair(s[2 * k - 2], s[2 * k - 1])]
  }

  /** What getStr of the std::set version prints: every run of neighbours as a range. */
  function SetItems(view: seq<nat>): seq<Item> {
    if view == [] then []
    else
      var items, v := SetItems(view[..|view| - 1]), view[|view| - 1];
      if |view| >= 2 && |items| > 0 && v == view[|view| - 2] + 1 then
        items[..|items| - 1] + [Range(Start(items[|items| - 1]), v)]
      else items + [Single(v)]
  }

  function Start(x: Item): nat {
    match x case Single(v) => v case Range(a, _) => a
  }

  lemma ApplyMore(m: Mask, N: nat, B: nat, items: seq<Item>, x: Item)
    requires Config(N, B) && Formed(m, N)
    ensures var t := Apply(m, N, B, items);
      Apply(m, N, B, items + [x]) ==
      if t.None? then None
      else match x case Single(v) => Append(t.value, N, B, v) case Range(a, b) => AppendRange(t.value, N, B, a, b)
  {
    assert (items + [x])[..|items|] == items;
    hide Append, AppendRange;
  }

  lemma SetApplyMore(view: seq<nat>, B: nat, items: seq<Item>, x: Item)
    ensures var t := SetApply(view, B, items);
      SetApply(view, B, items + [x]) ==
      if t.None? then None
      else match x case Single(v) => SetAppend(t.value, B, v) case Range(a, b) => SetAppendRange(t.value, B, a, b)
  {
    assert (items + [x])[..|items|] == items;
    hide SetAppend, SetAppendRange;
  }

  lemma {:induction false} ApplySingles(w: seq<nat>, N: nat, B: nat)
    requires Config(N, B)
    ensures Formed(Empty(N), N) && Apply(Empty(N), N, B, Singles(w)) == Build(w, N, B)
    ensures SetApply([], B, Singles(w)).Some? ==> SetApply([], B, Singles(w)) == Some(w)
    ensures Sorted(w) && AllBelow(w, B) ==> SetApply([], B, Singles(w)) == Some(w)
  {
    if w != [] {
      var u, v := w[..|w| - 1], w[|w| - 1];
      ApplySingles(u, N, B);
      ApplyMore(Empty(N), N, B, Singles(u), Single(v));
      SetApplyMore([], B, Singles(u), Single(v));
      ViewEnd(w);
      if Sorted(w) && AllBelow(w, B) {
        assert Sorted(u) && forall i :: 0 <= i < |u| ==> u[i] == w[i];
        if u != [] { assert u[|u| - 1] == w[|w| - 2]; }
      }
      hide Apply, Append, SetApply;
    }
  }

  /** The mask of the first k intervals. */
  function Front(s: seq<nat>, k: nat): Mask
    requires 0 < k && 2 * k <= |s|
  {
    Mask(s[..2 * k] + Zeros(|s| - 2 * k), 2 * k - 1, true)
  }

  lemma FrontStep(s: seq<nat>, k: nat, N: nat, B: nat)
    requires Config(N, B) && |s| == N && 1 < k && 2 * k <= N && Gaps(s, k, B)
    ensures Formed(Front(s, k - 1), N)
    ensures s[2 * k - 1] > 0 ==>
      AppendRange(Front(s, k - 1), N, B, s[2 * k - 2], s[2 * k - 2] + s[2 * k - 1]) == Some(Front(s, k))
    ensures s[2 * k - 1] == 0 ==> Append(Front(s, k - 1), N, B, s[2 * k - 2]) == Some(Front(s, k))
  {
    GapsStep(s, k, B);
    hide Gaps, Runs;
    var f, g := Front(s, k - 1), Front(s, k);
    assert f.s[2 * k - 3] == s[2 * k - 3] && f.s[2 * k - 4] == s[2 * k - 4];
    assert f.s[2 * k - 2 := s[2 * k - 2]][2 * k - 1 := s[2 * k - 1]] == g.s;
    if s[2 * k - 1] == 0 {
      assert f.s[2 * k - 2 := s[2 * k - 2]] == g.s;
    }
  }

  lemma FrontFirst(s: seq<nat>, N: nat, B: nat)
    requires Config(N, B) && |s| == N && Gaps(s, 1, B)
    ensures s[1] > 0 && AppendRange(Empty(N), N, B, s[0], s[0] + s[1]) == Some(Front(s, 1))
  {
    GapsStep(s, 1, B);
    hide Gaps, Runs;
    assert Empty(N).s[0 := s[0]][1 := s[1]] == Front(s, 1).s;
  }

  lemma PairsIs(s: seq<nat>, k: nat)
    requires 0 < k && 2 * k <= |s|
    ensures Pairs(s, k) == Pairs(s, k - 1) + [Pair(s[2 * k - 2], s[2 * k - 1])] && (Pairs(s, k - 1) == [] <==> k == 1)
  {}

  lemma PairsNone(s: seq<nat>)
    ensures Pairs(s, 0) == []
  {}

  lemma ApplyNone(m: Mask, N: nat, B: nat)
    requires Config(N, B) && Formed(m, N)
    ensures Apply(m, N, B, []) == Some(m)
  {}

  lemma {:induction false} ApplyPairs(s: seq<nat>, k: nat, N: nat, B: nat)
    requires Config(N, B) && |s| == N && 0 < k && 2 * k <= N && Gaps(s, k, B)
    ensures Formed(Empty(N), N) && Apply(Empty(N), N, B, Pairs(s, k)) == Some(Front(s, k))
  {
    hide Apply, Append, AppendRange, Front, Gaps, Runs, Pairs;
    PairsIs(s, k);
    ApplyMore(Empty(N), N, B, Pairs(s, k - 1), Pair(s[2 * k - 2], s[2 * k - 1]));
    if k == 1 {
      FrontFirst(s, N, B);
      ApplyNone(Empty(N), N, B);
    } else {
      GapsStep(s, k, B);
      ApplyPairs(s, k - 1, N, B);
      FrontStep(s, k, N, B);
    }
  }

  lemma {:induction false} SetSpanIs(view: seq<nat>, B: nat, a: nat, b: nat)
    requires a <= b < B && (|view| > 0 ==> view[|view| - 1] < a)
    ensures SetAppendRange(view, B, a, b) == Some(view + Span(a, b - a))
    decreases b - a
  {
    if a < b {
      SetSpanIs(view + [a], B, a + 1, b);
      assert view + [a] + Span(a + 1, b - a - 1) == view + Span(a, b - a);
    } else {
      assert Span(a, 0) == [a];
    }
  }

  lemma {:induction false} SetApplyPairs(s: seq<nat>, k: nat, B: nat)
    requires 2 * k <= |s| && Gaps(s, k, B)
    ensures SetApply([], B, Pairs(s, k)) == Some(Runs(s, k))
  {
    if k > 0 {
      var v, len := s[2 * k - 2], s[2 * k - 1];
      GapsStep(s, k, B);
      SetApplyPairs(s, k - 1, B);
      SetApplyMore([], B, Pairs(s, k - 1), Pair(v, len));
      var r := Runs(s, k - 1);
      if k > 1 { RunsEnds(s, k - 1, B); }
      hide SetApply, Gaps, Runs;
      assert k == 1 ==> r == [] by { RunsNothing(s); }
      if len > 0 { SetSpanIs(r, B, v, v + len); } else { assert Span(v, 0) == [v]; }
    }
  }

  lemma ItemsSmall(m: Mask, N: nat, B: nat)
    requires Config(N, B) && Canonical(m, N, B) && B <= U32
    ensures Formed(m, N) && Small(Items(m, N))
  {
    assert Formed(m, N) by { hide Gaps; }
    if m == Empty(N) {
    } else if m.range {
      PairsSmall(m.s, (m.n + 1) / 2, B);
    } else {
      SinglesSmall(m.s[..m.n + 1], B);
    }
  }

  lemma {:induction false} PairsSmall(s: seq<nat>, k: nat, B: nat)
    requires 2 * k <= |s| && Gaps(s, k, B) && B <= U32
    ensures Small(Pairs(s, k))
  {
    if k > 0 {
      GapsStep(s, k, B);
      PairsSmall(s, k - 1, B);
      hide Gaps, Runs;
    }
  }

  lemma {:induction false} SinglesSmall(w: seq<nat>, B: nat)
    requires AllBelow(w, B) && B <= U32
    ensures Small(Singles(w))
  {
    if w != [] { SinglesSmall(w[..|w| - 1], B); }
  }

  lemma RangeParts(m: Mask, N: nat, B: nat)
    requires Config(N, B) && Canonical(m, N, B) && m != Empty(N) && m.range
    ensures Formed(m, N) && Unused(m) && 0 < (m.n + 1) / 2 <= N / 2 && Gaps(m.s, (m.n + 1) / 2, B)
    ensures Items(m, N) == Pairs(m.s, (m.n + 1) / 2) && View(m, N) == Runs(m.s, (m.n + 1) / 2)
  {
    hide Gaps, Runs, Pairs;
  }

  lemma RangeRoundTrip(m: Mask, N: nat, B: nat)
    requires Config(N, B) && Canonical(m, N, B) && m != Empty(N) && m.range
    ensures Formed(m, N) && Formed(Empty(N), N)
    ensures Apply(Empty(N), N, B, Items(m, N)) == Some(m) && SetApply([], B, Items(m, N)) == Some(View(m, N))
  {
    hide Gaps, Runs, Apply, SetApply, Pairs, Front, Canonical, Items, View;
    RangeParts(m, N, B);
    ApplyPairs(m.s, (m.n + 1) / 2, N, B);
    SetApplyPairs(m.s, (m.n + 1) / 2, B);
    FrontIsAll(m, N);
  }

  lemma FrontIsAll(m: Mask, N: nat)
    requires Formed(m, N) && N % 2 == 0 && m.range && Unused(m)
    ensures Front(m.s, (m.n + 1) / 2) == m
  {
    assert Front(m.s, (m.n + 1) / 2).s == m.s;
  }

  lemma DiscreteRoundTrip(m: Mask, N: nat, B: nat)
    requires Config(N, B) && Canonical(m, N, B) && m != Empty(N) && !m.range
    ensures Formed(m, N) && Formed(Empty(N), N)
    ensures Apply(Empty(N), N, B, Items(m, N)) == Some(m) && SetApply([], B, Items(m, N)) == Some(View(m, N))
  {
    var w := View(m, N);
    hide Gaps, Runs, Apply, SetApply, Build, Representable, RunCount;
    ViewShape(m, N, B);
    ApplySingles(w, N, B);
    BuildAccepts(w, N, B);
    CanonicalIsUnique(m, Build(w, N, B).value, N, B);
  }

  /** setStr(getStr(m)) into an empty mask succeeds and gives m back, and the std::set version reads the same set. */
  lemma TextRoundTrip(m: Mask, N: nat, B: nat)
    requires Config(N, B) && Canonical(m, N, B) && B <= U32
    ensures Formed(m, N) && Formed(Empty(N), N)
    ensures var read := Parse(Print(Items(m, N)), 0);
      && read.Some?
      && Apply(Empty(N), N, B, read.value) == Some(m)
      && SetApply([], B, read.value) == Some(View(m, N))
  {
    ItemsSmall(m, N, B);
    ParsePrint(Items(m, N));
    hide Parse, Print, Small, Canonical;
    if m != Empty(N) {
      hide Apply, SetApply, View, Items;
      if m.range { RangeRoundTrip(m, N, B); } else { DiscreteRoundTrip(m, N, B); }
    }
  }

  /** items make up the elements before position cut, and the rest are neighbours from a on. */
  ghost predicate LastRun(w: seq<nat>, B: nat, items: seq<Item>, a: nat, cut: nat) {
    && cut < |w| && w[cut..] == Span(a, |w| - 1 - cut) && SetApply([], B, items) == Some(w[..cut])
    && SetItems(w) == items + [Pair(a, |w| - 1 - cut)]
  }

  lemma CutFacts(w: seq<nat>, a: nat, cut: nat)
    requires Sorted(w) && cut < |w| && w[cut..] == Span(a, |w| - 1 - cut)
    ensures w[..cut] + Span(a, |w| - 1 - cut) == w && w[|w| - 1] == a + (|w| - 1 - cut)
    ensures cut > 0 ==> w[..cut][cut - 1] < a
  {
    assert w[cut..][0] == w[cut] && w[cut..][|w| - 1 - cut] == w[|w| - 1];
    assert w[..cut] + w[cut..] == w;
  }

  lemma ApplyLast(p: seq<nat>, a: nat, len: nat, B: nat, items: seq<Item>)
    requires SetApply([], B, items) == Some(p) && a + len < B && (|p| > 0 ==> p[|p| - 1] < a)
    ensures SetApply([], B, items + [Pair(a, len)]) == Some(p + Span(a, len))
  {
    hide SetApply, Span;
    SetApplyMore([], B, items, Pair(a, len));
    SetSpanIs(p, B, a, a + len);
    if len == 0 { SetSpanOne(p, B, a); }
  }

  lemma LastRunParts(w: seq<nat>, B: nat, items: seq<Item>, a: nat, cut: nat)
    requires Sorted(w) && AllBelow(w, B) && LastRun(w, B, items, a, cut)
    ensures var p, len := w[..cut], |w| - 1 - cut;
      && SetItems(w) == items + [Pair(a, len)] && SetApply([], B, items) == Some(p)
      && p + Span(a, len) == w && a + len < B && (|p| > 0 ==> p[|p| - 1] < a)
  {
    hide SetItems, SetApply, Pair, Span;
    CutFacts(w, a, cut);
    assert w[|w| - 1] < B;
  }

  lemma LastRunApplies(w: seq<nat>, B: nat, items: seq<Item>, a: nat, cut: nat)
    requires Sorted(w) && AllBelow(w, B) && cut < |w| && LastRun(w, B, items, a, cut)
    ensures SetApply([], B, SetItems(w)) == Some(w)
  {
    hide *;
    LastRunParts(w, B, items, a, cut);
    ApplyLast(w[..cut], a, |w| - 1 - cut, B, items);
  }

  lemma SetSpanOne(p: seq<nat>, B: nat, a: nat)
    ensures SetAppendRange(p, B, a, a) == SetAppend(p, B, a)
  {}

  /** Reading back what the std::set version prints gives the same set. */
  lemma {:induction false} SetItemsRead(w: seq<nat>, B: nat) returns (items: seq<Item>, a: nat, cut: nat)
    requires Sorted(w) && AllBelow(w, B)
    ensures SetApply([], B, SetItems(w)) == Some(w)
    ensures w != [] ==> LastRun(w, B, items, a, cut)
  {
    if w == [] { items, a, cut := [], 0, 0; }
    else {
      var u, v := w[..|w| - 1], w[|w| - 1];
      items, a, cut := SetItemsRead(u, B);
      ViewEnd(w);
      if |w| >= 2 && v == w[|w| - 2] + 1 {
        RunGoesOn(u, v, B, items, a, cut);
      } else {
        RunStarts(u, v, B);
        items, a, cut := SetItems(u), v, |u|;
      }
      LastRunApplies(w, B, items, a, cut);
    }
  }

  lemma RunStarts(u: seq<nat>, v: nat, B: nat)
    requires SetApply([], B, SetItems(u)) == Some(u) && (u != [] ==> v != u[|u| - 1] + 1)
    ensures LastRun(u + [v], B, SetItems(u), v, |u|)
  {
    var w := u + [v];
    assert w[..|u|] == u;
    assert SetItems(w) == SetItems(u) + [Single(v)];
    assert w[|u|..] == [v] == Span(v, 0);
  }

  lemma SetItemsGoesOn(u: seq<nat>, v: nat, items: seq<Item>, x: Item)
    requires u != [] && v == u[|u| - 1] + 1 && SetItems(u) == items + [x]
    ensures SetItems(u + [v]) == items + [Range(Start(x), v)]
  {
    var w := u + [v];
    assert w[..|w| - 1] == u && w[|w| - 2] == u[|u| - 1] && w[|w| - 1] == v;
    assert (items + [x])[..|items + [x]| - 1] == items && (items + [x])[|items + [x]| - 1] == x;
  }

  lemma CutGoesOn(u: seq<nat>, v: nat, a: nat, cut: nat)
    requires cut < |u| && u[cut..] == Span(a, |u| - 1 - cut) && v == u[|u| - 1] + 1
    ensures (u + [v])[cut..] == Span(a, |u| - cut) && (u + [v])[..cut] == u[..cut]
  {
    assert u[cut..][|u| - 1 - cut] == u[|u| - 1];
    assert (u + [v])[cut..] == u[cut..] + [v];
  }

  lemma RunGoesOn(u: seq<nat>, v: nat, B: nat, items: seq<Item>, a: nat, cut: nat)
    requires u != [] && v == u[|u| - 1] + 1 && LastRun(u, B, items, a, cut)
    ensures LastRun(u + [v], B, items, a, cut)
  {
    hide SetItems, SetApply;
    SetItemsGoesOn(u, v, items, Pair(a, |u| - 1 - cut));
    CutGoesOn(u, v, a, cut);
    assert u[cut..][|u| - 1 - cut] == u[|u| - 1];
  }

  predicate NoNeighbours(w: seq<nat>) {
    forall i :: 0 < i < |w| ==> w[i] != w[i - 1] + 1
  }

  lemma {:induction false} SetItemsCount(w: seq<nat>)
    ensures |SetItems(w)| == RunCount(w) <= |w| && (w != [] ==> SetItems(w) != []) && |Singles(w)| == |w|
    ensures RunCount(w) == |w| ==> NoNeighbours(w)
  {
    if w != [] {
      SetItemsCount(w[..|w| - 1]);
      if |w| >= 2 { assert w[..|w| - 1] != []; }
    }
  }

  lemma {:induction false} SetItemsSingles(w: seq<nat>)
    requires NoNeighbours(w)
    ensures SetItems(w) == Singles(w)
  {
    if w != [] { SetItemsSingles(w[..|w| - 1]); }
  }

  lemma SetItemsStarts(u: seq<nat>, v: nat)
    requires u != [] ==> v != u[|u| - 1] + 1
    ensures SetItems(u + [v]) == SetItems(u) + [Single(v)]
  {
    assert (u + [v])[..|u|] == u;
  }

  lemma {:induction false} SetItemsSpan(r: seq<nat>, v: nat, len: nat)
    requires r != [] ==> r[|r| - 1] + 1 != v
    ensures SetItems(r + Span(v, len)) == SetItems(r) + [Pair(v, len)]
  {
    hide SetItems;
    if len == 0 {
      assert Span(v, 0) == [v];
      SetItemsStarts(r, v);
    } else {
      SetItemsSpan(r, v, len - 1);
      assert Span(v, len) == Span(v, len - 1) + [v + len];
      assert r + Span(v, len) == r + Span(v, len - 1) + [v + len];
      var u := r + Span(v, len - 1);
      assert u[|u| - 1] == Span(v, len - 1)[len - 1];
      SetItemsGoesOn(u, v + len, SetItems(r), Pair(v, len - 1));
    }
  }

  lemma {:induction false} SetItemsPairs(s: seq<nat>, k: nat, B: nat)
    requires 2 * k <= |s| && Gaps(s, k, B)
    ensures SetItems(Runs(s, k)) == Pairs(s, k)
  {
    if k > 0 {
      GapsStep(s, k, B);
      SetItemsPairs(s, k - 1, B);
      if k > 1 { RunsEnds(s, k - 1, B); } else { RunsNothing(s); }
      hide Gaps, Runs, SetItems;
      SetItemsSpan(Runs(s, k - 1), s[2 * k - 2], s[2 * k - 1]);
    }
  }

  lemma {:induction false} SetItemsSmall(w: seq<nat>)
    requires AllBelow(w, U32)
    ensures Small(SetItems(w))
  {
    if w != [] { SetItemsSmall(w[..|w| - 1]); }
  }

  lemma PrintInjective(a: seq<Item>, b: seq<Item>)
    requires Small(a) && Small(b) && Print(a) == Print(b)
    ensures a == b
  {
    ParsePrint(a);
    ParsePrint(b);
  }

  lemma DiscreteTexts(w: seq<nat>)
    requires AllBelow(w, U32)
    ensures Print(Singles(w)) == Print(SetItems(w)) <==> NoNeighbours(w)
  {
    hide Print, SetItems, Singles;
    SetItemsCount(w);
    if NoNeighbours(w) { SetItemsSingles(w); }
    else if Print(Singles(w)) == Print(SetItems(w)) {
      SetItemsSmall(w);
      SinglesSmall(w, U32);
      PrintInjective(Singles(w), SetItems(w));
    }
  }

  /** The two versions print the same text exactly for intervals and for sets without neighbours. */
  lemma TextsAgree(m: Mask, N: nat, B: nat)
    requires Config(N, B) && Canonical(m, N, B) && B <= U32
    ensures Formed(m, N)
    ensures Print(Items(m, N)) == Print(SetItems(View(m, N))) <==> m.range || NoNeighbours(View(m, N))
  {
    hide Gaps, Runs, Print, Representable, RunCount, Sorted, NoNeighbours, Pairs, Singles;
    ViewShape(m, N, B);
    var w := View(m, N);
    if m.range {
      SetItemsPairs(m.s, (m.n + 1) / 2, B);
    } else {
      DiscreteTexts(w);
      if m == Empty(N) { SinglesNone(); }
    }
  }

  lemma SinglesNone()
    ensures Singles([]) == []
  {}

  /** The std::set version prints 3,5-6 where the compact one prints 3,5,6, and cannot read it. */
  lemma CompactRefusesSetText()
    ensures SetItems([3, 5, 6]) == [Single(3), Range(5, 6)]
    ensures Build([3, 5, 6], 6, 1024).Some?
    ensures Formed(Empty(6), 6) && Apply(Empty(6), 6, 1024, SetItems([3, 5, 6])) == None
  {
    SetText356();
    hide SetItems, Build, Apply;
    BuildAccepts([3, 5, 6], 6, 1024);
    ApplyMore(Empty(6), 6, 1024, [], Single(3));
    ApplyMore(Empty(6), 6, 1024, [Single(3)], Range(5, 6));
    assert [] + [Single(3)] == [Single(3)];
    assert Apply(Empty(6), 6, 1024, []) == Some(Empty(6)) by { ApplyNone(Empty(6), 6, 1024); }
  }

  lemma SetText356()
    ensures SetItems([3, 5, 6]) == [Single(3), Range(5, 6)] == [Single(3)] + [Range(5, 6)]
  {
    assert [] + [3] == [3] && [3] + [5] == [3, 5] && [3, 5] + [6] == [3, 5, 6];
    SetItemsStarts([], 3);
    assert SetItems([]) == [];
    hide SetItems;
    SetItemsStarts([3], 5);
    SetItemsGoesOn([3, 5], 6, [Single(3)], Single(5));
    assert [Single(3)] + [Range(5, 6)] == [Single(3), Range(5, 6)];
  }

  lemma {:induction false} ApplyPrefix(m: Mask, N: nat, B: nat, a: seq<Item>, b: seq<Item>)
    requires Config(N, B) && Formed(m, N) && Apply(m, N, B, a + b).Some?
    ensures Apply(m, N, B, a).Some?
    decreases |b|
  {
    hide Apply;
    if b == [] { assert a + b == a; }
    else {
      var c, x := b[..|b| - 1], b[|b| - 1];
      assert a + b == a + c + [x];
      ApplyMore(m, N, B, a + c, x);
      ApplyPrefix(m, N, B, a, c);
    }
  }

  /** The items after the first two neighbours: the values before them one by one, then a range. */
  lemma {:induction false} FirstRange(w: seq<nat>, c: nat)
    requires c + 1 < |w| && w[c + 1] == w[c] + 1 && NoNeighbours(w[..c + 1])
    ensures |SetItems(w)| > c && SetItems(w)[..c] == Singles(w[..c]) && SetItems(w)[c].Range?
    decreases |w|
  {
    hide SetItems, Singles, NoNeighbours;
    var u, v := w[..|w| - 1], w[|w| - 1];
    assert w == u + [v];
    if c + 2 == |w| {
      assert u == w[..c + 1];
      RangeStarts(u, v, c);
      assert u[..c] == w[..c];
    } else {
      assert u[..c + 1] == w[..c + 1] && u[..c] == w[..c];
      FirstRange(u, c);
      var items := SetItems(u);
      if v == u[|u| - 1] + 1 {
        var init, x := items[..|items| - 1], items[|items| - 1];
        assert items == init + [x];
        SetItemsGoesOn(u, v, init, x);
      } else {
        SetItemsStarts(u, v);
      }
    }
  }

  lemma RangeStarts(u: seq<nat>, v: nat, c: nat)
    requires |u| == c + 1 && v == u[c] + 1 && NoNeighbours(u)
    ensures SetItems(u + [v]) == Singles(u[..c]) + [Range(u[c], v)] && |Singles(u[..c])| == c
  {
    SetItemsSingles(u);
    assert Singles(u) == Singles(u[..c]) + [Single(u[c])];
    SinglesLength(u[..c]);
    hide SetItems, Singles;
    SetItemsGoesOn(u, v, Singles(u[..c]), Single(u[c]));
  }

  lemma {:induction false} SinglesLength(w: seq<nat>)
    ensures |Singles(w)| == |w|
  {
    if w != [] { SinglesLength(w[..|w| - 1]); }
  }

  lemma NoneAtEnd(w: seq<nat>)
    requires |w| >= 2 && NoNeighbours(w[..|w| - 1]) && w[|w| - 1] != w[|w| - 2] + 1
    ensures NoNeighbours(w)
  {
    var u := w[..|w| - 1];
    assert forall i :: 0 <= i < |u| ==> u[i] == w[i];
  }

  lemma FirstNeighbours(w: seq<nat>) returns (c: nat)
    requires !NoNeighbours(w)
    ensures c + 1 < |w| && w[c + 1] == w[c] + 1 && NoNeighbours(w[..c + 1])
  {
    c := 0;
    while w[c + 1] != w[c] + 1
      invariant c + 1 < |w| && NoNeighbours(w[..c + 1])
      decreases |w| - c
    {
      if c + 2 == |w| { NoneAtEnd(w); }
      assert w[..c + 2] == w[..c + 1] + [w[c + 1]];
      c := c + 1;
    }
  }

  /** A range is refused once there are single values. */
  lemma RangeRefused(w: seq<nat>, c: nat, N: nat, B: nat, a: nat, b: nat)
    requires Config(N, B) && 0 < c && NoNeighbours(w)  && |w| == c && Build(w, N, B).Some?
    ensures AppendRange(Build(w, N, B).value, N, B, a, b) == None
  {
    ViewShape(Build(w, N, B).value, N, B);
    hide Build;
  }

  /** The compact version reads what the std::set version prints for the set of a mask if and only if the mask has
      intervals or no two neighbours. */
  lemma CompactReads(m: Mask, N: nat, B: nat)
    requires Config(N, B) && Canonical(m, N, B) && B <= U32
    ensures Formed(m, N) && Formed(Empty(N), N)
    ensures Apply(Empty(N), N, B, SetItems(View(m, N))).Some? <==> m.range || NoNeighbours(View(m, N))
  {
    hide Gaps, Runs, Representable, RunCount, Sorted, NoNeighbours, Pairs, Singles, Apply, Parse, Print;
    TextRoundTrip(m, N, B);
    ItemsSmall(m, N, B);
    ParsePrint(Items(m, N));
    ViewShape(m, N, B);
    var w := View(m, N);
    if m.range {
      SetItemsPairs(m.s, (m.n + 1) / 2, B);
    } else if NoNeighbours(w) {
      SetItemsSingles(w);
      if m == Empty(N) { SinglesNone(); }
    } else {
      RunRefused(w, N, B);
    }
  }

  lemma RunRefused(w: seq<nat>, N: nat, B: nat)
    requires Config(N, B) && !NoNeighbours(w) && (|w| >= 2 ==> w[1] != w[0] + 1)
    ensures Formed(Empty(N), N) && Apply(Empty(N), N, B, SetItems(w)).None?
  {
    hide Apply, SetItems, Singles, Build, NoNeighbours;
    var c := FirstNeighbours(w);
    FirstRange(w, c);
    var items := SetItems(w);
    var x := items[c];
    assert items == items[..c] + [x] + items[c + 1..];
    ApplySingles(w[..c], N, B);
    ApplyMore(Empty(N), N, B, Singles(w[..c]), x);
    if Apply(Empty(N), N, B, items).Some? {
      ApplyPrefix(Empty(N), N, B, Singles(w[..c]) + [x], items[c + 1..]);
      FewerNeighbours(w, c);
      RangeRefused(w[..c], c, N, B, x.a, x.b);
    }
  }

  lemma FewerNeighbours(w: seq<nat>, c: nat)
    requires c + 1 < |w| && NoNeighbours(w[..c + 1])
    ensures NoNeighbours(w[..c])
  {
    assert forall i :: 0 <= i < c ==> w[..c][i] == w[..c + 1][i];
  }
}
