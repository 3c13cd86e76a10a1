/** xbyak/xbyak_util.h: CpuMask in its compact form, against the plain std::set version of the same file. */
module CpuMasks {
  import Arith
  import opened Bytes
  import opened Packing

  /** The contents of the fields a_ (slot by slot), n_ and range_. */
  datatype Mask = Mask(s: seq<nat>, n: nat, range: bool)

  function Zeros(k: nat): seq<nat> { seq(k, _ => 0) }

  function Empty(N: nat): Mask
    requires N >= 2
  {
    Mask([0, 1] + Zeros(N - 2), 0, false)
  }

  /** The interval starting at v with len more elements. */
  function Span(v: nat, len: nat): (r: seq<nat>)
    ensures |r| == len + 1 && forall i :: 0 <= i <= len ==> r[i] == v + i
  {
    seq(len + 1, i requires 0 <= i => v + i)
  }

  /** The elements of the first k intervals. */
  function Runs(s: seq<nat>, k: nat): seq<nat>
    requires 2 * k <= |s|
  {
    if k == 0 then [] else Runs(s, k - 1) + Span(s[2 * k - 2], s[2 * k - 1])
  }

  /** The set a mask stands for, in increasing order. */
  function View(m: Mask, N: nat): seq<nat>
    requires N >= 2 && |m.s| == N && m.n < N
  {
    if m == Empty(N) then [] else if m.range then Runs(m.s, (m.n + 1) / 2) else m.s[..m.n + 1]
  }

  predicate Sorted(v: seq<nat>) {
    forall i, j :: 0 <= i < j < |v| ==> v[i] < v[j]
  }

  predicate Config(N: nat, B: nat) {
    N % 2 == 0 && 2 <= N <= 8 && 2 <= B
  }

  /** What every mask built by append satisfies: unused slots are zero; discrete values increase and the first two
      are not neighbours; intervals are in order, with a gap between them, and the first has two elements. */
  predicate Canonical(m: Mask, N: nat, B: nat)
    requires Config(N, B)
  {
    && |m.s| == N && m.n < N && (forall i :: 0 <= i < N ==> m.s[i] < B)
    && (m == Empty(N) || (Unused(m) && if m.range then IntervalsOk(m.s, m.n, B) else DiscreteOk(m.s, m.n)))
  }

  predicate Unused(m: Mask) {
    forall i :: m.n < i < |m.s| ==> m.s[i] == 0
  }

  predicate DiscreteOk(s: seq<nat>, n: nat)
    requires n < |s|
  {
    (forall i, j :: 0 <= i < j <= n ==> s[i] < s[j]) && (n >= 1 ==> s[1] != s[0] + 1)
  }

  predicate IntervalsOk(s: seq<nat>, n: nat, B: nat)
    requires n < |s|
  {
    n % 2 == 1 && Gaps(s, (n + 1) / 2, B)
  }

  predicate Gaps(s: seq<nat>, k: nat, B: nat)
    requires 2 * k <= |s|
  {
    k == 0 ||
    ( && Gaps(s, k - 1, B) && s[2 * k - 2] + s[2 * k - 1] < B
      && if k == 1 then s[1] >= 1 else s[2 * k - 4] + s[2 * k - 3] + 1 < s[2 * k - 2])
  }

  /** append of the compact form. */
  function Append(m: Mask, N: nat, B: nat, v: nat): Option<Mask>
    requires Config(N, B) && |m.s| == N && m.n < N && (m.range ==> m.n >= 1 && (m.n % 2 == 1))
  {
    if v >= B then None
    else if m == Empty(N) then Some(Mask([v] + Zeros(N - 1), 0, false))
    else if !m.range then
      var prev := m.s[m.n];
      if v <= prev then None
      else if m.n == 0 && prev + 1 == v then Some(Mask(m.s[1 := 1], 1, true))
      else if m.n >= N - 1 then None
      else Some(Mask(m.s[m.n + 1 := v], m.n + 1, false))
    else
      var prev := m.s[m.n - 1] + m.s[m.n];
      if prev >= v then None
      else if prev + 1 == v then Some(m.(s := m.s[m.n := m.s[m.n] + 1]))
      else if m.n >= N - 1 then None
      else Some(Mask(m.s[m.n + 1 := v], m.n + 2, true))
  }

  /** append of the std::set version, on the sorted sequence of its elements. */
  function SetAppend(view: seq<nat>, B: nat, v: nat): Option<seq<nat>> {
    if v >= B || (|view| > 0 && view[|view| - 1] >= v) then None else Some(view + [v])
  }

  /** How many maximal runs of neighbours an increasing sequence has. */
  function RunCount(view: seq<nat>): nat {
    if |view| == 0 then 0
    else RunCount(view[..|view| - 1]) + (if |view| >= 2 && view[|view| - 1] == view[|view| - 2] + 1 then 0 else 1)
  }

  /** The sets the compact form can hold: those that start with two neighbours in N / 2 runs, others as N values. */
  predicate Representable(view: seq<nat>, N: nat) {
    if |view| >= 2 && view[1] == view[0] + 1 then RunCount(view) <= N / 2 else |view| <= N
  }

  lemma GapsStep(s: seq<nat>, k: nat, B: nat)
    requires k > 0 && 2 * k <= |s|
    ensures Gaps(s, k, B) <==>
      && Gaps(s, k - 1, B) && s[2 * k - 2] + s[2 * k - 1] < B
      && if k == 1 then s[1] >= 1 else s[2 * k - 4] + s[2 * k - 3] + 1 < s[2 * k - 2]
    ensures Runs(s, k) == Runs(s, k - 1) + Span(s[2 * k - 2], s[2 * k - 1])
  {}

  lemma {:induction false} RunsFrame(s: seq<nat>, t: seq<nat>, k: nat, B: nat)
    requires 2 * k <= |s| && 2 * k <= |t| && s[..2 * k] == t[..2 * k]
    ensures Runs(s, k) == Runs(t, k) && (Gaps(s, k, B) <==> Gaps(t, k, B))
  {
    if k > 0 {
      GapsStep(s, k, B);
      GapsStep(t, k, B);
      hide Gaps, Runs;
      assert s[..2 * (k - 1)] == s[..2 * k][..2 * (k - 1)] == t[..2 * (k - 1)];
      RunsFrame(s, t, k - 1, B);
      Same(s, t, 2 * k, 2 * k - 1);
      Same(s, t, 2 * k, 2 * k - 2);
      if k > 1 {
        Same(s, t, 2 * k, 2 * k - 3);
        Same(s, t, 2 * k, 2 * k - 4);
      }
    }
  }

  lemma Same(s: seq<nat>, t: seq<nat>, n: nat, i: nat)
    requires i < n <= |s| && n <= |t| && s[..n] == t[..n]
    ensures s[i] == t[i]
  {
    assert s[i] == s[..n][i] && t[i] == t[..n][i];
  }

  /** The ends of the intervals. */
  lemma {:induction false} RunsEnds(s: seq<nat>, k: nat, B: nat)
    requires 0 < k && 2 * k <= |s| && Gaps(s, k, B)
    ensures var r := Runs(s, k);
      |r| >= 2 && r[0] == s[0] && r[1] == s[0] + 1 && r[|r| - 1] == s[2 * k - 2] + s[2 * k - 1]
  {
    var v, len := s[2 * k - 2], s[2 * k - 1];
    if k == 1 {
      RunsFirst(s);
    } else {
      RunsEnds(s, k - 1, B);
      hide Gaps;
      var r := Runs(s, k - 1);
      assert Runs(s, k) == r + Span(v, len);
      hide Runs;
    }
  }

  lemma RunsFirst(s: seq<nat>)
    requires 2 <= |s|
    ensures Runs(s, 1) == Span(s[0], s[1])
  {
    hide Span;
    var first := Span(s[0], s[1]);
    RunsNothing(s);
    RunsUnfold(s);
    hide Runs;
    assert [] + first == first;
  }

  lemma RunsNothing(s: seq<nat>)
    ensures Runs(s, 0) == []
  {}

  lemma RunsUnfold(s: seq<nat>)
    requires 2 <= |s|
    ensures Runs(s, 1) == Runs(s, 0) + Span(s[0], s[1])
  {
    hide Span;
  }

  predicate AllBelow(r: seq<nat>, B: nat) {
    forall i :: 0 <= i < |r| ==> r[i] < B
  }

  lemma SpanAfter(r: seq<nat>, v: nat, len: nat, B: nat)
    requires Sorted(r) && AllBelow(r, B) && v + len < B && (|r| > 0 ==> r[|r| - 1] + 1 < v)
    ensures Sorted(r + Span(v, len)) && AllBelow(r + Span(v, len), B) && RunCount(r + Span(v, len)) == RunCount(r) + 1
  {
    hide RunCount, Span;
    RunCountSpan(r, v, len);
    SortedSpan(r, v, len, B);
  }

  lemma SortedSpan(r: seq<nat>, v: nat, len: nat, B: nat)
    requires Sorted(r) && AllBelow(r, B) && v + len < B && (|r| > 0 ==> r[|r| - 1] < v)
    ensures Sorted(r + Span(v, len)) && AllBelow(r + Span(v, len), B)
  {
    hide Span;
    var t := r + Span(v, len);
    forall i | 0 <= i < |r| ensures t[i] == r[i] < v {
      if i < |r| - 1 { assert r[i] < r[|r| - 1]; }
    }
    forall i | |r| <= i < |t| ensures t[i] == v + (i - |r|) {}
  }

  lemma RunsFirstSorted(s: seq<nat>, B: nat)
    requires 2 <= |s| && Gaps(s, 1, B)
    ensures Sorted(Runs(s, 1)) && AllBelow(Runs(s, 1), B) && RunCount(Runs(s, 1)) == 1
  {
    GapsStep(s, 1, B);
    RunsFirst(s);
    hide Gaps, Runs;
    SpanAfter([], s[0], s[1], B);
    assert [] + Span(s[0], s[1]) == Span(s[0], s[1]);
  }

  lemma {:induction false} RunsSorted(s: seq<nat>, k: nat, B: nat)
    requires 0 < k && 2 * k <= |s| && Gaps(s, k, B)
    ensures Sorted(Runs(s, k)) && AllBelow(Runs(s, k), B) && RunCount(Runs(s, k)) == k
  {
    hide *;
    if k == 1 {
      RunsFirstSorted(s, B);
    } else {
      GapsStep(s, k, B);
      RunsEnds(s, k - 1, B);
      RunsSorted(s, k - 1, B);
      SpanAfter(Runs(s, k - 1), s[2 * k - 2], s[2 * k - 1], B);
    }
  }

  lemma RunCountNone()
    ensures RunCount([]) == 0
  {}

  lemma {:induction false} RunCountSpan(view: seq<nat>, v: nat, len: nat)
    requires |view| > 0 ==> view[|view| - 1] + 1 < v
    ensures RunCount(view + Span(v, len)) == RunCount(view) + 1
  {
    var r := view + Span(v, len);
    if len == 0 { assert r[..|r| - 1] == view; }
    else {
      assert r[..|r| - 1] == view + Span(v, len - 1);
      RunCountSpan(view, v, len - 1);
    }
  }

  /** The view is increasing and within range, and says which form the mask has. */
  lemma ViewShape(m: Mask, N: nat, B: nat)
    requires Config(N, B) && Canonical(m, N, B)
    ensures var w := View(m, N);
      && Sorted(w) && AllBelow(w, B) && Representable(w, N)
      && (w == [] <==> m == Empty(N))
      && (m.range <==> |w| >= 2 && w[1] == w[0] + 1)
      && (w != [] ==> w[|w| - 1] == if m.range then m.s[m.n - 1] + m.s[m.n] else m.s[m.n])
      && (m.range ==> RunCount(w) == (m.n + 1) / 2)
      && (w != [] && !m.range ==> |w| == m.n + 1)
  {
    hide RunCount, Runs, Gaps;
    if m != Empty(N) && m.range {
      var k := (m.n + 1) / 2;
      RunsEnds(m.s, k, B);
      RunsSorted(m.s, k, B);
    }
  }

  lemma AppendFirst(N: nat, B: nat, v: nat)
    requires Config(N, B)
    ensures var r := Append(Empty(N), N, B, v);
      && (r.Some? <==> v < B)
      && (r.Some? ==> Canonical(r.value, N, B) && View(r.value, N) == [v])
  {
    var t := Mask([v] + Zeros(N - 1), 0, false);
    assert t.s[1] == 0 && Empty(N).s[1] == 1;
    assert t.s[..1] == [v];
  }

  lemma AppendToRange(m: Mask, N: nat, B: nat, v: nat)
    requires Config(N, B) && Canonical(m, N, B) && m != Empty(N) && m.range
    ensures var r := Append(m, N, B, v); var prev := m.s[m.n - 1] + m.s[m.n];
      && (r.Some? <==> prev < v < B && (v == prev + 1 || m.n < N - 1))
      && (r.Some? ==> Canonical(r.value, N, B) && View(r.value, N) == View(m, N) + [v])
  {
    hide Runs, Gaps;
    var r := Append(m, N, B, v);
    var k := (m.n + 1) / 2;
    if r.Some? {
      LastBelow(m.s, k, B);
      if m.s[m.n - 1] + m.s[m.n] + 1 == v {
        assert r.value == m.(s := m.s[m.n := m.s[m.n] + 1]);
        hide Append;
        Lengthen(m.s, k, B);
      } else {
        assert r.value == m.(s := m.s[m.n + 1 := v], n := m.n + 2);
        hide Append;
        Extend(m.s, k, B, v);
      }
    }
  }

  lemma LastBelow(s: seq<nat>, k: nat, B: nat)
    requires 0 < k && 2 * k <= |s| && Gaps(s, k, B)
    ensures s[2 * k - 2] + s[2 * k - 1] < B
  {}

  /** The last interval gets one element longer. */
  lemma Lengthen(s: seq<nat>, k: nat, B: nat)
    requires 0 < k && 2 * k <= |s| && Gaps(s, k, B) && s[2 * k - 2] + s[2 * k - 1] + 1 < B
    ensures var t := s[2 * k - 1 := s[2 * k - 1] + 1];
      Gaps(t, k, B) && Runs(t, k) == Runs(s, k) + [s[2 * k - 2] + s[2 * k - 1] + 1]
  {
    var v, len := s[2 * k - 2], s[2 * k - 1];
    var t := s[2 * k - 1 := len + 1];
    RunsFrame(s, t, k - 1, B);
    assert Span(v, len + 1) == Span(v, len) + [v + len + 1];
    assert Runs(t, k) == Runs(s, k - 1) + (Span(v, len) + [v + len + 1]);
  }

  /** A new interval of one element. */
  lemma Extend(s: seq<nat>, k: nat, B: nat, v: nat)
    requires 0 < k && 2 * k + 2 <= |s| && Gaps(s, k, B) && s[2 * k - 2] + s[2 * k - 1] + 1 < v < B && s[2 * k + 1] == 0
    ensures var t := s[2 * k := v]; Gaps(t, k + 1, B) && Runs(t, k + 1) == Runs(s, k) + [v]
  {
    var t := s[2 * k := v];
    RunsFrame(s, t, k, B);
    hide Gaps, Runs;
    assert Span(v, 0) == [v];
    GapsStep(t, k + 1, B);
  }

  /** A second value next to the first makes an interval of the two. */
  lemma BecomeRange(m: Mask, N: nat, B: nat)
    requires Config(N, B) && Canonical(m, N, B) && m != Empty(N) && !m.range && m.n == 0 && m.s[0] + 1 < B
    ensures var t := Mask(m.s[1 := 1], 1, true);
      Canonical(t, N, B) && t != Empty(N) && View(t, N) == [m.s[0], m.s[0] + 1]
  {
    var t := m.s[1 := 1];
    RunsFirst(t);
    GapsStep(t, 1, B);
    assert Gaps(t, 0, B) && Span(t[0], t[1]) == [m.s[0], m.s[0] + 1];
    hide Gaps, Runs, Span;
  }

  lemma NextValue(m: Mask, N: nat, B: nat, v: nat)
    requires Config(N, B) && Canonical(m, N, B) && m != Empty(N) && !m.range && m.n < N - 1 && m.s[m.n] < v < B
    requires m.n == 0 ==> v != m.s[0] + 1
    ensures var t := Mask(m.s[m.n + 1 := v], m.n + 1, false);
      Canonical(t, N, B) && View(t, N) == m.s[..m.n + 1] + [v]
  {
    hide Gaps, Runs;
    var t := m.s[m.n + 1 := v];
    assert t[..m.n + 2] == m.s[..m.n + 1] + [v];
    assert t[0] == m.s[0];
  }

  lemma AppendToDiscrete(m: Mask, N: nat, B: nat, v: nat)
    requires Config(N, B) && Canonical(m, N, B) && m != Empty(N) && !m.range
    ensures var r := Append(m, N, B, v); var prev := m.s[m.n];
      && (r.Some? <==> prev < v < B && ((m.n == 0 && v == prev + 1) || m.n < N - 1))
      && (r.Some? ==> Canonical(r.value, N, B) && View(r.value, N) == View(m, N) + [v])
  {
    if Append(m, N, B, v).Some? {
      if m.n == 0 && m.s[0] + 1 == v {
        BecomeRange(m, N, B);
        assert m.s[..1] + [v] == [m.s[0], v];
      } else {
        NextValue(m, N, B, v);
      }
      hide Canonical;
    }
  }

  /** When one more value is still representable, in terms of the view. */
  lemma MoreRepresentable(w: seq<nat>, N: nat, v: nat)
    requires Representable(w, N) && N >= 2
    ensures Representable(w + [v], N) <==>
      if w == [] then true
      else if |w| >= 2 && w[1] == w[0] + 1 then v == w[|w| - 1] + 1 || RunCount(w) < N / 2
      else (|w| == 1 && v == w[0] + 1) || |w| < N
  {
    RunCountOne(w, v);
    if |w| == 1 && v == w[0] + 1 {
      assert w == [] + [w[0]];
      RunCountOne([], w[0]);
      RunCountNone();
    }
    hide RunCount;
    if |w| >= 2 { assert (w + [v])[1] == w[1] && (w + [v])[0] == w[0]; }
    else if |w| == 1 { assert (w + [v])[1] == v && (w + [v])[0] == w[0]; }
  }

  lemma RunCountOne(w: seq<nat>, v: nat)
    ensures RunCount(w + [v]) == RunCount(w) + (if |w| > 0 && v == w[|w| - 1] + 1 then 0 else 1)
  {
    assert (w + [v])[..|w|] == w;
  }

  /** append accepts exactly the next elements with which the set is still representable, among those the std::set
      version accepts, and then adds just that element; the mask stays canonical. */
  lemma AppendRefinesSet(m: Mask, N: nat, B: nat, v: nat)
    requires Config(N, B) && Canonical(m, N, B)
    ensures Append(m, N, B, v).Some? <==>
      SetAppend(View(m, N), B, v).Some? && Representable(View(m, N) + [v], N)
    ensures Append(m, N, B, v).Some? ==>
      && Canonical(Append(m, N, B, v).value, N, B)
      && Some(View(Append(m, N, B, v).value, N)) == SetAppend(View(m, N), B, v)
  {
    ViewShape(m, N, B);
    var w := View(m, N);
    MoreRepresentable(w, N, v);
    if m == Empty(N) {
      AppendFirst(N, B, v);
      assert w + [v] == [v];
    } else if m.range {
      AppendToRange(m, N, B, v);
      RangeLength(m, N, B);
      hide RunCount, View, Canonical, Append, Representable, Sorted;
    } else {
      AppendToDiscrete(m, N, B, v);
      hide RunCount, View, Canonical, Append, Representable, Sorted;
    }
  }

  lemma RangeLength(m: Mask, N: nat, B: nat)
    requires Config(N, B) && Canonical(m, N, B) && m != Empty(N) && m.range
    ensures m.n % 2 == 1 && ((m.n + 1) / 2 < N / 2 <==> m.n < N - 1)
  {
    hide Gaps;
  }

  /** The mask before its last element was appended. */
  function Undo(m: Mask, N: nat): Mask
    requires N >= 2 && |m.s| == N && m.n < N && m != Empty(N) && (m.range ==> m.n % 2 == 1 && (m.n == 1 ==> m.s[1] >= 1))
  {
    if !m.range then if m.n == 0 then Empty(N) else Mask(m.s[m.n := 0], m.n - 1, false)
    else if m.s[m.n] == 0 then Mask(m.s[m.n - 1 := 0], m.n - 2, true)
    else if m.n == 1 && m.s[1] == 1 then Mask(m.s[1 := 0], 0, false)
    else m.(s := m.s[m.n := m.s[m.n] - 1])
  }

  function Last(m: Mask): nat
    requires m.n < |m.s| && (m.range ==> m.n >= 1)
  {
    if m.range then m.s[m.n - 1] + m.s[m.n] else m.s[m.n]
  }

  lemma {:induction false} FirstGap(s: seq<nat>, k: nat, B: nat)
    requires 0 < k && 2 * k <= |s| && Gaps(s, k, B)
    ensures s[1] >= 1
  {
    if k > 1 { FirstGap(s, k - 1, B); }
  }

  lemma UndoDiscrete(m: Mask, N: nat, B: nat)
    requires Config(N, B) && Canonical(m, N, B) && m != Empty(N) && !m.range
    ensures Canonical(Undo(m, N), N, B) && Append(Undo(m, N), N, B, Last(m)) == Some(m)
  {
    hide Gaps, Runs;
    var u := Undo(m, N);
    if m.n == 0 {
      assert m.s == [m.s[0]] + Zeros(N - 1);
    } else {
      assert u.s[m.n := m.s[m.n]] == m.s;
    }
  }

  lemma DropGaps(s: seq<nat>, k: nat, B: nat)
    requires 0 < k && 2 * k <= |s| && Gaps(s, k, B) && s[1] >= 1 && s[2 * k - 1] == 0
    ensures k >= 2 && Gaps(s[2 * k - 2 := 0], k - 1, B)
    ensures s[2 * k - 4] + s[2 * k - 3] + 1 < s[2 * k - 2] < B
  {
    GapsStep(s, k, B);
    var t := s[2 * k - 2 := 0];
    hide Gaps, Runs;
    assert t[..2 * (k - 1)] == s[..2 * (k - 1)];
    RunsFrame(s, t, k - 1, B);
  }

  lemma ShortenGaps(s: seq<nat>, k: nat, B: nat)
    requires 0 < k && 2 * k <= |s| && Gaps(s, k, B) && s[2 * k - 1] >= 1 && (k == 1 ==> s[1] >= 2)
    ensures Gaps(s[2 * k - 1 := s[2 * k - 1] - 1], k, B) && s[2 * k - 2] + s[2 * k - 1] < B
  {
    GapsStep(s, k, B);
    var t := s[2 * k - 1 := s[2 * k - 1] - 1];
    GapsStep(t, k, B);
    hide Gaps, Runs;
    assert t[..2 * (k - 1)] == s[..2 * (k - 1)];
    RunsFrame(s, t, k - 1, B);
  }

  lemma DropInterval(m: Mask, N: nat, B: nat)
    requires Config(N, B) && Canonical(m, N, B) && m != Empty(N) && m.range && m.s[1] >= 1 && m.s[m.n] == 0
    ensures Canonical(Undo(m, N), N, B) && Append(Undo(m, N), N, B, Last(m)) == Some(m)
  {
    hide Gaps, Runs;
    var u, k := Undo(m, N), (m.n + 1) / 2;
    assert m.n == 2 * k - 1;
    DropGaps(m.s, k, B);
    assert Canonical(u, N, B);
    hide Canonical;
    assert u.s[m.n - 1 := m.s[m.n - 1]] == m.s;
  }

  lemma SplitPair(m: Mask, N: nat, B: nat)
    requires Config(N, B) && Canonical(m, N, B) && m != Empty(N) && m.range && m.n == 1 && m.s[1] == 1
    ensures Canonical(Undo(m, N), N, B) && Append(Undo(m, N), N, B, Last(m)) == Some(m)
  {
    var u := Undo(m, N);
    GapsStep(m.s, 1, B);
    hide Gaps, Runs;
    assert u.s[1 := 1] == m.s;
    assert u.s[1] == 0 && u != Empty(N);
  }

  lemma ShortenInterval(m: Mask, N: nat, B: nat)
    requires Config(N, B) && Canonical(m, N, B) && m != Empty(N) && m.range && m.s[m.n] >= 1 && !(m.n == 1 && m.s[1] == 1)
    requires m.s[1] >= 1
    ensures Canonical(Undo(m, N), N, B) && Append(Undo(m, N), N, B, Last(m)) == Some(m)
  {
    hide Gaps, Runs;
    var u, k := Undo(m, N), (m.n + 1) / 2;
    assert m.n == 2 * k - 1;
    ShortenGaps(m.s, k, B);
    assert Canonical(u, N, B);
    hide Canonical;
    assert u.s[m.n := m.s[m.n]] == m.s;
  }

  /** Every canonical mask but the empty one comes from a canonical one by appending its greatest element. */
  lemma UndoAppend(m: Mask, N: nat, B: nat)
    requires Config(N, B) && Canonical(m, N, B) && m != Empty(N)
    ensures m.range ==> m.n % 2 == 1 && m.s[1] >= 1
    ensures Canonical(Undo(m, N), N, B) && Append(Undo(m, N), N, B, Last(m)) == Some(m)
    ensures View(m, N) == View(Undo(m, N), N) + [Last(m)]
  {
    if m.range {
      FirstGap(m.s, (m.n + 1) / 2, B);
      if m.s[m.n] == 0 { DropInterval(m, N, B); }
      else if m.n == 1 && m.s[1] == 1 { SplitPair(m, N, B); }
      else { ShortenInterval(m, N, B); }
    } else {
      UndoDiscrete(m, N, B);
    }
    AppendRefinesSet(Undo(m, N), N, B, Last(m));
    hide *;
  }

  /** Canonical masks of the same set are the same mask. */
  lemma {:induction false} CanonicalIsUnique(m1: Mask, m2: Mask, N: nat, B: nat)
    requires Config(N, B) && Canonical(m1, N, B) && Canonical(m2, N, B) && View(m1, N) == View(m2, N)
    ensures m1 == m2
    decreases |View(m1, N)|
  {
    ViewShape(m1, N, B);
    ViewShape(m2, N, B);
    hide Canonical, View, Append, Undo, Last, Representable, Sorted, RunCount;
    if m1 != Empty(N) {
      UndoAppend(m1, N, B);
      UndoAppend(m2, N, B);
      var w := View(m1, N);
      var w1, w2 := View(Undo(m1, N), N), View(Undo(m2, N), N);
      assert w1 == w[..|w| - 1] && w2 == w[..|w| - 1];
      assert Last(m1) == w[|w| - 1] && Last(m2) == w[|w| - 1];
      CanonicalIsUnique(Undo(m1, N), Undo(m2, N), N, B);
    }
  }

  /** Appending a whole sequence to the empty mask. */
  function Build(w: seq<nat>, N: nat, B: nat): (r: Option<Mask>)
    requires Config(N, B)
    ensures r.Some? ==> Canonical(r.value, N, B) && View(r.value, N) == w
  {
    if w == [] then Some(Empty(N))
    else
      var m :- Build(w[..|w| - 1], N, B);
      AppendRefinesSet(m, N, B, w[|w| - 1]);
      ViewEnd(w);
      Append(m, N, B, w[|w| - 1])
  }

  lemma ViewEnd(w: seq<nat>)
    requires w != []
    ensures w == w[..|w| - 1] + [w[|w| - 1]]
  {}

  predicate Holdable(w: seq<nat>, N: nat, B: nat) {
    Sorted(w) && AllBelow(w, B) && Representable(w, N)
  }

  lemma HoldableMore(u: seq<nat>, v: nat, N: nat, B: nat)
    requires N >= 2
    ensures Holdable(u + [v], N, B) <==>
      Holdable(u, N, B) && SetAppend(u, B, v).Some? && Representable(u + [v], N)
  {
    var w := u + [v];
    hide Representable;
    SortedMore(u, v);
    assert w[|u|] == v && forall i :: 0 <= i < |u| ==> w[i] == u[i];
    if Representable(w, N) { PrefixRepresentable(u, v, N); }
  }

  /** The masks append can build are the representable sets, each in exactly one way. */
  lemma {:induction false} BuildAccepts(w: seq<nat>, N: nat, B: nat)
    requires Config(N, B)
    ensures Build(w, N, B).Some? <==> Holdable(w, N, B)
  {
    if w == [] {
      RunCountNone();
    } else {
      hide Representable, Append, View, RunCount, Gaps, Runs, Holdable, Sorted;
      var u, v := w[..|w| - 1], w[|w| - 1];
      ViewEnd(w);
      BuildAccepts(u, N, B);
      HoldableMore(u, v, N, B);
      if Build(u, N, B).Some? {
        var m := Build(u, N, B).value;
        AppendRefinesSet(m, N, B, v);
        assert Build(w, N, B) == Append(m, N, B, v);
      }
    }
  }

  lemma SortedMore(u: seq<nat>, v: nat)
    ensures Sorted(u + [v]) <==> Sorted(u) && (u != [] ==> u[|u| - 1] < v)
  {
    assert forall i :: 0 <= i < |u| ==> (u + [v])[i] == u[i];
    assert (u + [v])[|u|] == v;
    if u != [] && Sorted(u + [v]) { assert (u + [v])[|u| - 1] < (u + [v])[|u|]; }
  }

  lemma PrefixRepresentable(u: seq<nat>, v: nat, N: nat)
    requires Representable(u + [v], N) && N >= 2
    ensures Representable(u, N)
  {
    RunCountOne(u, v);
    hide RunCount;
    if |u| >= 2 { assert (u + [v])[1] == u[1] && (u + [v])[0] == u[0]; }
  }

  /** to_u64: the three fields side by side. */
  function ToU64(a: nat, n: nat, range: bool, N: nat, bitN: nat): nat {
    a + Shl(n, N * bitN) + Shl(if range then 1 else 0, N * bitN + 3)
  }

  /** Comparing to_u64 compares the fields, as long as a_ and n_ stay in their bits. */
  lemma ToU64Determines(a1: nat, n1: nat, r1: bool, a2: nat, n2: nat, r2: bool, N: nat, bitN: nat)
    requires a1 < Weight(bitN, N) && a2 < Weight(bitN, N) && n1 < 8 && n2 < 8
    ensures ToU64(a1, n1, r1, N, bitN) == ToU64(a2, n2, r2, N, bitN) <==> a1 == a2 && n1 == n2 && r1 == r2
  {
    var w := Weight(bitN, N);
    Arith.Pow2Add(N * bitN, 3);
    assert Arith.Pow2(3) == 8;
    var h1, h2 := n1 + 8 * (if r1 then 1 else 0), n2 + 8 * (if r2 then 1 else 0);
    Fields(a1, n1, r1, N, bitN);
    Fields(a2, n2, r2, N, bitN);
    hide Arith.Pow2, Weight;
    if ToU64(a1, n1, r1, N, bitN) == ToU64(a2, n2, r2, N, bitN) {
      SplitBase(w, h1, a1);
      SplitBase(w, h2, a2);
    }
  }

  lemma Fields(a: nat, n: nat, r: bool, N: nat, bitN: nat)
    ensures ToU64(a, n, r, N, bitN) == a + Weight(bitN, N) * (n + 8 * (if r then 1 else 0))
  {
    Arith.Pow2Add(N * bitN, 3);
    assert Arith.Pow2(3) == 8;
    hide Arith.Pow2;
  }
}
