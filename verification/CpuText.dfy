/** xbyak/xbyak_util.h: the text form of a CPU mask, such as 0-3,5, as impl::setStr reads and getStr writes it. */
module CpuText {
  import opened Bytes

  const U32: int := 0x1_0000_0000
  const U64: int := 0x1_0000_0000_0000_0000

  datatype Item = Single(v: nat) | Range(a: nat, b: nat)

  predicate Digit(c: char) { '0' <= c <= '9' }

  predicate Space(c: char) { c == ' ' || '\t' <= c <= '\r' }

  function DigitOf(v: nat): (c: char)
    requires v < 10
    ensures Digit(c) && c as int - '0' as int == v
  {
    (v + '0' as int) as char
  }

  /** Decimal, as printf("%u") writes it. */
  function Text(v: nat): (s: string)
    ensures |s| > 0 && forall i :: 0 <= i < |s| ==> Digit(s[i])
  {
    if v < 10 then [DigitOf(v)] else Text(v / 10) + [DigitOf(v % 10)]
  }

  function ValueOf(c: char): nat
    requires Digit(c)
  {
    c as int - '0' as int
  }

  function Decimal(s: string): nat
    requires forall i :: 0 <= i < |s| ==> Digit(s[i])
  {
    if s == [] then 0 else 10 * Decimal(s[..|s| - 1]) + ValueOf(s[|s| - 1])
  }

  function SkipSpace(s: string, i: nat): (j: nat)
    requires i <= |s|
    ensures i <= j <= |s|
    decreases |s| - i
  {
    if i < |s| && Space(s[i]) then SkipSpace(s, i + 1) else i
  }

  function DigitsEnd(s: string, i: nat): (j: nat)
    requires i <= |s|
    ensures i <= j <= |s| && forall k :: i <= k < j ==> Digit(s[k])
    decreases |s| - i
  {
    if i < |s| && Digit(s[i]) then DigitsEnd(s, i + 1) else i
  }

  /** uint32_t(strtoul(s + i, &end, 10)) with a 64-bit unsigned long: blanks, a sign, digits; it saturates, and a
      minus sign negates modulo 2^64. end is i if there is no number. */
  function StrToUl(s: string, i: nat): (r: (nat, nat))
    requires i <= |s|
    ensures i <= r.1 <= |s| && r.0 < U32
  {
    var j := SkipSpace(s, i);
    var k := if j < |s| && (s[j] == '+' || s[j] == '-') then j + 1 else j;
    var e := DigitsEnd(s, k);
    if e == k then (0, i)
    else
      var v := Decimal(s[k..e]);
      var w := if v >= U64 then U64 - 1 else if s[j] == '-' then (U64 - v) % U64 else v;
      (w % U32, e)
  }

  /** The items impl::setStr reads from position i on, or None where it stops with false. */
  function Parse(s: string, i: nat): Option<seq<Item>>
    requires i <= |s|
    decreases |s| - i
  {
    if i == |s| then Some([])
    else if i != 0 && s[i] != ',' then None
    else
      var j := if i != 0 then i + 1 else i;
      var (v, e) := StrToUl(s, j);
      if e == j then None
      else if e < |s| && s[e] == '-' then
        var (w, f) := StrToUl(s, e + 1);
        if f == e + 1 then None
        else
          var rest :- Parse(s, f);
          Some([Range(v, w)] + rest)
      else
        var rest :- Parse(s, e);
        Some([Single(v)] + rest)
  }

  /** One round of the loop. */
  lemma ParseStep(s: string, i: nat)
    requires i < |s|
    ensures var j := if i != 0 then i + 1 else i;
      if i != 0 && s[i] != ',' then Parse(s, i).None?
      else
        var (v, e) := StrToUl(s, j);
        if e == j then Parse(s, i).None?
        else if e < |s| && s[e] == '-' then
          var (w, f) := StrToUl(s, e + 1);
          if f == e + 1 then Parse(s, i).None? else Reads(s, i, Range(v, w), f)
        else Reads(s, i, Single(v), e)
  {
    hide StrToUl;
  }

  /** Reading from i gives x and goes on at e. */
  predicate Reads(s: string, i: nat, x: Item, e: nat)
    requires i <= |s| && e <= |s|
  {
    Parse(s, i) == if Parse(s, e).Some? then Some([x] + Parse(s, e).value) else None
  }

  function PrintItem(x: Item): (s: string)
    ensures |s| > 0
  {
    match x
    case Single(v) => Text(v)
    case Range(a, b) => Text(a) + "-" + Text(b)
  }

  function PrintTail(items: seq<Item>): string {
    if items == [] then "" else "," + PrintItem(items[0]) + PrintTail(items[1..])
  }

  function Print(items: seq<Item>): string {
    if items == [] then "" else PrintItem(items[0]) + PrintTail(items[1..])
  }

  lemma {:induction false} PrintTailMore(items: seq<Item>, x: Item)
    ensures PrintTail(items + [x]) == PrintTail(items) + "," + PrintItem(x)
  {
    if items == [] {
      assert items + [x] == [x] && [x][1..] == [];
      assert PrintTail([x]) == "," + PrintItem(x) + "";
    } else {
      assert (items + [x])[0] == items[0] && (items + [x])[1..] == items[1..] + [x];
      PrintTailMore(items[1..], x);
    }
  }

  /** One more item goes to the end, after a comma if it is not the first. */
  lemma PrintMore(items: seq<Item>, x: Item)
    ensures Print(items + [x]) == Print(items) + (if items == [] then "" else ",") + PrintItem(x)
  {
    if items == [] {
      assert items + [x] == [x] && [x][1..] == [];
      assert Print([x]) == PrintItem(x) + "";
    } else {
      assert (items + [x])[0] == items[0] && (items + [x])[1..] == items[1..] + [x];
      PrintTailMore(items[1..], x);
    }
  }

  lemma {:induction false} DecimalText(v: nat)
    ensures Decimal(Text(v)) == v
  {
    if v < 10 {
      assert Text(v)[..0] == [];
    } else {
      DecimalText(v / 10);
      var t := Text(v / 10);
      assert (t + [DigitOf(v % 10)])[..|t|] == t;
    }
  }

  lemma {:induction false} TextIsPlain(v: nat)
    ensures Text(v)[0] == '0' ==> v == 0 && |Text(v)| == 1
  {
    if v >= 10 { TextIsPlain(v / 10); }
  }

  /** It is the only text of digits with that value and without zeros in front. */
  lemma {:induction false} TextIsOnly(v: nat, s: string)
    requires |s| > 0 && (forall i :: 0 <= i < |s| ==> Digit(s[i])) && (s[0] == '0' ==> |s| == 1) && Decimal(s) == v
    ensures s == Text(v)
    decreases |s|
  {
    var init, c := s[..|s| - 1], s[|s| - 1];
    assert v == 10 * Decimal(init) + ValueOf(c);
    if |s| == 1 {
      assert init == [] && v == ValueOf(c);
      assert s == [DigitOf(v)];
    } else {
      assert init[0] == s[0];
      NotZero(init);
      TextIsOnly(v / 10, init);
      assert s == init + [c];
    }
  }

  lemma {:induction false} NotZero(s: string)
    requires |s| > 0 && (forall i :: 0 <= i < |s| ==> Digit(s[i])) && s[0] != '0'
    ensures Decimal(s) > 0
    decreases |s|
  {
    var init := s[..|s| - 1];
    if |s| > 1 { NotZero(init); } else { assert init == []; }
  }

  /** White space: the blank and the codes 9 to 13. */
  predicate Blank(c: char) { c as int == 32 || 9 <= c as int <= 13 }

  predicate AreDigits(s: string, i: nat, e: nat) {
    i < e <= |s| && (forall k :: i <= k < e ==> Digit(s[k])) && (e < |s| ==> !Digit(s[e]))
  }

  lemma {:induction false} SpacesEnd(s: string, i: nat, j: nat)
    requires i <= j < |s| && (forall k :: i <= k < j ==> Blank(s[k])) && !Blank(s[j])
    ensures SkipSpace(s, i) == j
    decreases j - i
  {
    if i < j { SpacesEnd(s, i + 1, j); }
  }

  /** strtoul in general: white space and a sign go before the digits; the result is the number, or its negative, modulo
      2^32, and 2^32 - 1 for numbers from 2^64 on. */
  lemma ReadsSigned(s: string, i: nat, j: nat, k: nat, e: nat)
    requires i <= j <= k && AreDigits(s, k, e) && (forall p :: i <= p < j ==> Blank(s[p]))
    requires j == k || (k == j + 1 && (s[j] == '+' || s[j] == '-'))
    ensures var v, (w, end) := Decimal(s[k..e]), StrToUl(s, i);
      && end == e
      && (if v >= 0x1_0000_0000_0000_0000 then w == 0xFFFF_FFFF
          else (w - (if j < k && s[j] == '-' then 0 - v else v)) % 0x1_0000_0000 == 0)
  {
    SpacesEnd(s, i, j);
    DigitsStop(s, k, e);
    hide SkipSpace, DigitsEnd, Decimal;
    ModularIs(Decimal(s[k..e]));
  }

  lemma ModularIs(v: nat)
    ensures (v % U32 - v) % U32 == 0 && ((U64 - v) % U64 % U32 + v) % U32 == 0
  {
    var r, q := v % U32, v / U32;
    assert v == q * U32 + r;
  }

  predicate StopsAt(s: string, i: nat) {
    i <= |s| && (i < |s| ==> !Digit(s[i]))
  }

  lemma {:induction false} DigitsStop(s: string, i: nat, e: nat)
    requires i <= e && StopsAt(s, e) && forall k :: i <= k < e ==> Digit(s[k])
    ensures DigitsEnd(s, i) == e
    decreases e - i
  {
    if i < e { DigitsStop(s, i + 1, e); }
  }

  /** A printed number is read back. */
  lemma ReadsNumber(s: string, i: nat, v: nat)
    requires v < U32 && i + |Text(v)| <= |s| && s[i..i + |Text(v)|] == Text(v) && StopsAt(s, i + |Text(v)|)
    ensures StrToUl(s, i) == (v, i + |Text(v)|)
  {
    var e := i + |Text(v)|;
    forall k | i <= k < e ensures Digit(s[k]) { assert s[k] == s[i..e][k - i]; }
    assert Digit(s[i]);
    DigitsStop(s, i, e);
    DecimalText(v);
  }

  predicate Small(items: seq<Item>) {
    forall i :: 0 <= i < |items| ==> (match items[i] case Single(v) => v < U32 case Range(a, b) => a < U32 && b < U32)
  }

  lemma TailStops(s: string, e: nat, items: seq<Item>)
    requires e <= |s| && s[e..] == PrintTail(items)
    ensures StopsAt(s, e) && (e < |s| ==> s[e] == ',') && (e == |s| <==> items == [])
  {
    if e < |s| { assert s[e] == s[e..][0]; }
  }

  lemma ReadsSingle(s: string, i: nat, j: nat, v: nat, rest: seq<Item>)
    requires i < |s| && (if i == 0 then j == 0 else s[i] == ',' && j == i + 1) && j <= |s|
    requires StrToUl(s, j) == (v, j + |Text(v)|) && (j + |Text(v)| < |s| ==> s[j + |Text(v)|] == ',')
    requires Parse(s, j + |Text(v)|) == Some(rest)
    ensures Parse(s, i) == Some([Single(v)] + rest)
  {
    hide StrToUl, Text;
  }

  lemma ReadsRange(s: string, i: nat, j: nat, a: nat, m: nat, b: nat, f: nat, rest: seq<Item>)
    requires i < |s| && (if i == 0 then j == 0 else s[i] == ',' && j == i + 1) && j < m < f <= |s|
    requires StrToUl(s, j) == (a, m) && s[m] == '-' && StrToUl(s, m + 1) == (b, f) && f > m + 1
    requires Parse(s, f) == Some(rest)
    ensures Parse(s, i) == Some([Range(a, b)] + rest)
  {
    hide StrToUl, Text;
  }

  /** One printed item is read back, and reading goes on after it. */
  lemma ReadsItem(s: string, i: nat, j: nat, x: Item, rest: seq<Item>)
    requires i < |s| && (if i == 0 then j == 0 else s[i] == ',' && j == i + 1) && Small([x])
    requires j + |PrintItem(x)| <= |s| && s[j..j + |PrintItem(x)|] == PrintItem(x)
    requires s[j + |PrintItem(x)|..] == PrintTail(rest) && Parse(s, j + |PrintItem(x)|) == Some(rest)
    ensures Parse(s, i) == Some([x] + rest)
  {
    hide Parse, StrToUl, Text, PrintTail, Decimal;
    var e := j + |PrintItem(x)|;
    TailStops(s, e, rest);
    assert [x][0] == x;
    match x
    case Single(v) =>
      ReadsNumber(s, j, v);
      hide StopsAt;
      ReadsSingle(s, i, j, v, rest);
    case Range(a, b) =>
      var m := j + |Text(a)|;
      RangeParts(s, j, a, b);
      ReadsNumber(s, j, a);
      ReadsNumber(s, m + 1, b);
      hide StopsAt;
      ReadsRange(s, i, j, a, m, b, e, rest);
  }

  lemma RangeParts(s: string, j: nat, a: nat, b: nat)
    requires j + |PrintItem(Range(a, b))| <= |s| && s[j..j + |PrintItem(Range(a, b))|] == PrintItem(Range(a, b))
    ensures var m, e := j + |Text(a)|, j + |PrintItem(Range(a, b))|;
      m < e == m + 1 + |Text(b)| && s[j..m] == Text(a) && s[m] == '-' && s[m + 1..e] == Text(b) && StopsAt(s, m)
  {
    hide Text;
    var m, e := j + |Text(a)|, j + |PrintItem(Range(a, b))|;
    assert PrintItem(Range(a, b)) == Text(a) + "-" + Text(b);
    assert s[j..m] == s[j..e][..|Text(a)|] == Text(a);
    assert s[m] == s[j..e][|Text(a)|] == '-';
    assert s[m + 1..e] == s[j..e][|Text(a)| + 1..] == Text(b);
  }

  lemma {:induction false} ReadsTail(s: string, i: nat, items: seq<Item>)
    requires 0 < i <= |s| && s[i..] == PrintTail(items) && Small(items)
    ensures Parse(s, i) == Some(items)
    decreases |items|
  {
    hide Parse, PrintItem, PrintTail, Small, StopsAt;
    TailStops(s, i, items);
    if items != [] {
      var x, rest := items[0], items[1..];
      PrintTailIs(items);
      TailParts(s, i, x, rest);
      SmallParts(items);
      ReadsTail(s, i + 1 + |PrintItem(x)|, rest);
      ReadsItem(s, i, i + 1, x, rest);
      assert [x] + rest == items;
    } else {
      ParseEnd(s);
    }
  }

  lemma ParseEnd(s: string)
    ensures Parse(s, |s|) == Some([])
  {}

  lemma PrintTailIs(items: seq<Item>)
    requires items != []
    ensures PrintTail(items) == "," + PrintItem(items[0]) + PrintTail(items[1..])
  {}

  lemma TailParts(s: string, i: nat, x: Item, rest: seq<Item>)
    requires i < |s| && s[i..] == "," + PrintItem(x) + PrintTail(rest)
    ensures var e := i + 1 + |PrintItem(x)|; e <= |s| && s[i + 1..e] == PrintItem(x) && s[e..] == PrintTail(rest)
  {
    hide PrintItem, PrintTail;
    var e := i + 1 + |PrintItem(x)|;
    assert s[i + 1..e] == s[i..][1..1 + |PrintItem(x)|];
    assert s[e..] == s[i..][1 + |PrintItem(x)|..];
  }

  lemma SmallParts(items: seq<Item>)
    requires Small(items) && items != []
    ensures Small([items[0]]) && Small(items[1..])
  {}

  /** setStr reads exactly the items getStr wrote. */
  lemma ParsePrint(items: seq<Item>)
    requires Small(items)
    ensures Parse(Print(items), 0) == Some(items)
  {
    hide Parse, PrintItem, PrintTail, Small;
    if items != [] {
      var s, x, rest := Print(items), items[0], items[1..];
      var e := |PrintItem(x)|;
      SmallParts(items);
      PrintIs(items);
      hide Print;
      ReadsTail(s, e, rest);
      ReadsItem(s, 0, 0, x, rest);
      assert [x] + rest == items;
    } else {
      ParseEnd("");
    }
  }

  lemma PrintIs(items: seq<Item>)
    requires items != []
    ensures var s, e := Print(items), |PrintItem(items[0])|;
      0 < e <= |s| && s[0..e] == PrintItem(items[0]) && s[e..] == PrintTail(items[1..])
  {
    hide PrintItem, PrintTail;
  }
}
