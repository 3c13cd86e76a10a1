/** xbyak/xbyak.h: string labels, that is the anonymous labels @@, @f and @b and the scopes of local labels. */
module LabelNames {
  import opened Bytes

  /** One scope of string labels. undefs has a pending reference, by the number of its operation, and its name. */
  datatype Scope = Scope(defs: map<string, nat>, undefs: map<nat, string>)

  /** The label manager: global scope first, innermost local scope last. bound says to which offset each resolved
      reference leads; time numbers the operations. */
  datatype Names = Names(scopes: seq<Scope>, size: nat, time: nat, bound: map<nat, nat>)

  datatype Op =
    | L(name: string)
    | Ref(name: string)   // a jump, call or putL
    | Enter               // inLocalLabel
    | Leave               // outLocalLabel
    | Code(n: nat)        // anything else that emits n bytes

  const FRESH := Names([Scope(map[], map[]), Scope(map[], map[])], 0, 0, map[])

  predicate Dotted(name: string) { |name| > 0 && name[0] == '.' }

  function ScopeOf(s: Names, name: string): (i: nat)
    requires |s.scopes| >= 2
    ensures i < |s.scopes|
  {
    if Dotted(name) then |s.scopes| - 1 else 0
  }

  function WithScope(s: Names, i: nat, t: Scope): Names
    requires i < |s.scopes|
  {
    s.(scopes := s.scopes[i := t])
  }

  /** The pending references to a name, all led to one offset. */
  function Now(undefs: map<nat, string>, name: string, size: nat): map<nat, nat> {
    map r | r in undefs && undefs[r] == name :: size
  }

  /** define_inner: enter the name, and lead every pending reference to it here. */
  function Define(s: Names, name: string): Option<Names>
    requires |s.scopes| >= 2
  {
    var i := ScopeOf(s, name);
    var t := s.scopes[i];
    if name in t.defs then None
    else
      var now := Now(t.undefs, name, s.size);
      Some(WithScope(s, i, Scope(t.defs[name := s.size], t.undefs - now.Keys)).(bound := s.bound + now))
  }

  /** What L("@@") does to the two names before it defines one of them. */
  function NextName(s: Names): (string, Names)
    requires |s.scopes| >= 2
  {
    var t := s.scopes[0];
    if "@f" in t.defs then ("@b", WithScope(s, 0, t.(defs := t.defs - {"@f"})))
    else ("@f", WithScope(s, 0, t.(defs := t.defs - {"@b"})))
  }

  function DefineLabel(s: Names, name: string): Option<Names>
    requires |s.scopes| >= 2
  {
    if name == "@b" || name == "@f" then None
    else if name == "@@" then Define(NextName(s).1, NextName(s).0)
    else Define(s, name)
  }

  /** getOffset renames @b and @f in the caller's string; None is ERR_LABEL_IS_NOT_FOUND. */
  function Rename(s: Names, name: string): Option<string>
    requires |s.scopes| >= 2
  {
    var defs := s.scopes[0].defs;
    if name == "@b" then if "@f" in defs then Some("@f") else if "@b" in defs then Some("@b") else None
    else if name == "@f" then if "@f" in defs then Some("@b") else Some("@f")
    else Some(name)
  }

  function Refer(s: Names, name: string): Option<Names>
    requires |s.scopes| >= 2
  {
    var key :- Rename(s, name);
    var i := ScopeOf(s, key);
    var t := s.scopes[i];
    if key in t.defs then Some(s.(bound := s.bound[s.time := t.defs[key]]))
    else Some(WithScope(s, i, t.(undefs := t.undefs[s.time := key])))
  }

  function Step(s: Names, op: Op): (t: Option<Names>)
    requires |s.scopes| >= 2
    ensures t.Some? ==> |t.value.scopes| >= 2
  {
    var next := s.(time := s.time + 1);
    match op
    case L(name) =>
      var t :- DefineLabel(s, name);
      Some(t.(time := s.time + 1))
    case Ref(name) =>
      var t :- Refer(s, name);
      Some(t.(time := s.time + 1))
    case Enter => Some(next.(scopes := s.scopes + [Scope(map[], map[])]))
    case Leave =>
      if |s.scopes| <= 2 || s.scopes[|s.scopes| - 1].undefs != map[] then None
      else Some(next.(scopes := s.scopes[..|s.scopes| - 1]))
    case Code(n) => Some(next.(size := s.size + n))
  }

  function Run(ops: seq<Op>): (t: Option<Names>)
    ensures t.Some? ==> |t.value.scopes| >= 2
  {
    if ops == [] then Some(FRESH)
    else
      var s :- Run(ops[..|ops| - 1]);
      Step(s, ops[|ops| - 1])
  }

  /** The independent reading: every use of a name stands for a key of its own kind, which is defined at most once.
      The k-th @@ is Anonymous(k); local names belong to the scope that is open, scopes being numbered as they open. */
  datatype Key = Global(name: string) | Local(scope: nat, name: string) | Anonymous(k: nat)

  /** Scopes: open ones, innermost last, and the number of the next. anon counts the @@ so far. */
  datatype Table = Table(open: seq<nat>, next: nat, anon: nat, defs: map<Key, nat>, pend: map<nat, Key>,
                         size: nat, time: nat, bound: map<nat, nat>)

  const EMPTY := Table([0], 1, 0, map[], map[], 0, 0, map[])

  function KeyOf(open: seq<nat>, anon: nat, name: string, isDef: bool): Option<Key>
    requires |open| >= 1
  {
    var local := |name| > 0 && name[0] == '.';
    if isDef then
      if name == "@@" then Some(Anonymous(anon))
      else if name == "@b" || name == "@f" then None
      else Some(if local then Local(open[|open| - 1], name) else Global(name))
    else
      if name == "@b" then if anon == 0 then None else Some(Anonymous(anon - 1))
      else if name == "@f" then Some(Anonymous(anon))
      else Some(if local then Local(open[|open| - 1], name) else Global(name))
  }

  function NowKey(pend: map<nat, Key>, k: Key, size: nat): map<nat, nat> {
    map r | r in pend && pend[r] == k :: size
  }

  function TableStep(a: Table, op: Op): (b: Option<Table>)
    requires |a.open| >= 1
    ensures b.Some? ==> |b.value.open| >= 1
  {
    var next := a.(time := a.time + 1);
    match op
    case L(name) =>
      var k :- KeyOf(a.open, a.anon, name, true);
      if k in a.defs then None
      else
        var now := NowKey(a.pend, k, a.size);
        Some(next.(defs := a.defs[k := a.size], pend := a.pend - now.Keys, bound := a.bound + now,
                   anon := if name == "@@" then a.anon + 1 else a.anon))
    case Ref(name) =>
      var k :- KeyOf(a.open, a.anon, name, false);
      if k in a.defs then Some(next.(bound := a.bound[a.time := a.defs[k]]))
      else Some(next.(pend := a.pend[a.time := k]))
    case Enter => Some(next.(open := a.open + [a.next], next := a.next + 1))
    case Leave =>
      if |a.open| <= 1 || (exists r :: r in a.pend && a.pend[r].Local? && a.pend[r].scope == a.open[|a.open| - 1]) then None
      else Some(next.(open := a.open[..|a.open| - 1]))
    case Code(n) => Some(next.(size := a.size + n))
  }

  function TableRun(ops: seq<Op>): (t: Option<Table>)
    ensures t.Some? ==> |t.value.open| >= 1
  {
    if ops == [] then Some(EMPTY)
    else
      var a :- TableRun(ops[..|ops| - 1]);
      TableStep(a, ops[|ops| - 1])
  }

  /** The names of a global scope, apart from the two the manager uses for @@. */
  predicate Special(name: string) { name == "@f" || name == "@b" }

  ghost predicate GlobalAgrees(t: Scope, a: Table) {
    && (forall n :: n in t.defs && !Special(n) ==> !Dotted(n) && Global(n) in a.defs && a.defs[Global(n)] == t.defs[n])
    && (forall n :: Global(n) in a.defs ==> !Special(n) && !Dotted(n) && n in t.defs)
    && (forall r :: r in t.undefs && !Special(t.undefs[r]) ==> r in a.pend && a.pend[r] == Global(t.undefs[r]))
    && (forall r :: r in a.pend && a.pend[r].Global? ==>
      !Special(a.pend[r].name) && !Dotted(a.pend[r].name) && r in t.undefs && t.undefs[r] == a.pend[r].name)
  }

  /** Exactly one of @f and @b is defined once there has been an @@, and stands for the last one; pending references
      wait under the other, and stand for the next. */
  ghost predicate AnonymousAgrees(t: Scope, a: Table) {
    && ("@f" in t.defs <==> a.anon % 2 == 1)
    && ("@b" in t.defs <==> a.anon % 2 == 0 && a.anon > 0)
    && (a.anon > 0 ==> Anonymous(a.anon - 1) in a.defs)
    && (a.anon > 0 ==> a.defs[Anonymous(a.anon - 1)] == t.defs[if a.anon % 2 == 1 then "@f" else "@b"])
    && (forall k: nat :: Anonymous(k) in a.defs ==> k < a.anon)
    && (forall r :: r in t.undefs && Special(t.undefs[r]) ==>
      t.undefs[r] == Waiting(a.anon) && r in a.pend && a.pend[r] == Anonymous(a.anon))
    && (forall r :: r in a.pend && a.pend[r].Anonymous? ==>
      a.pend[r].k == a.anon && r in t.undefs && t.undefs[r] == Waiting(a.anon))
  }

  function Waiting(anon: nat): string { if anon % 2 == 1 then "@b" else "@f" }

  function Standing(anon: nat): string { if anon % 2 == 1 then "@f" else "@b" }

  ghost predicate LocalAgrees(t: Scope, id: nat, a: Table) {
    && (forall n :: n in t.defs ==> Dotted(n) && Local(id, n) in a.defs && a.defs[Local(id, n)] == t.defs[n])
    && (forall n :: Local(id, n) in a.defs ==> n in t.defs)
    && (forall r :: r in t.undefs ==> r in a.pend && a.pend[r] == Local(id, t.undefs[r]))
    && (forall r :: r in a.pend && a.pend[r].Local? && a.pend[r].scope == id ==>
      r in t.undefs && t.undefs[r] == a.pend[r].name && Dotted(t.undefs[r]))
  }

  ghost predicate ScopesOk(a: Table) {
    && |a.open| >= 1 && (forall i, j :: 0 <= i < j < |a.open| ==> a.open[i] < a.open[j])
    && (forall i :: 0 <= i < |a.open| ==> a.open[i] < a.next)
    && (forall k :: k in a.defs && k.Local? ==> k.scope < a.next)
    && (forall r :: r in a.pend && a.pend[r].Local? ==> a.pend[r].scope < a.next)
  }

  /** The manager and the table agree. */
  ghost predicate Agree(s: Names, a: Table) {
    && |s.scopes| == |a.open| + 1 && |a.open| >= 1 && s.size == a.size && s.time == a.time && s.bound == a.bound
    && ScopesOk(a) && GlobalAgrees(s.scopes[0], a) && AnonymousAgrees(s.scopes[0], a)
    && (forall i :: 0 <= i < |a.open| ==> LocalAgrees(s.scopes[i + 1], a.open[i], a))
    && (forall r :: r in a.pend ==> r < a.time)
  }

  lemma FreshAgrees()
    ensures Agree(FRESH, EMPTY)
  {}

  /** a and b differ in key k only. */
  ghost predicate OnlyKey(a: Table, b: Table, k: Key) {
    && b.open == a.open && b.next == a.next
    && (forall x :: x in a.defs && x != k ==> x in b.defs && b.defs[x] == a.defs[x])
    && (forall x :: x in b.defs && x != k ==> x in a.defs)
    && (forall r :: r in a.pend && a.pend[r] != k ==> r in b.pend && b.pend[r] == a.pend[r])
    && (forall r :: r in b.pend && b.pend[r] != k ==> r in a.pend && a.pend[r] == b.pend[r])
  }

  lemma LocalFrame(t: Scope, id: nat, a: Table, b: Table, k: Key)
    requires LocalAgrees(t, id, a) && OnlyKey(a, b, k) && !(k.Local? && k.scope == id)
    ensures LocalAgrees(t, id, b)
  {}

  lemma GlobalFrame(t: Scope, a: Table, b: Table, k: Key)
    requires GlobalAgrees(t, a) && OnlyKey(a, b, k) && !k.Global?
    ensures GlobalAgrees(t, b)
  {}

  lemma AnonymousFrame(t: Scope, a: Table, b: Table, k: Key)
    requires AnonymousAgrees(t, a) && OnlyKey(a, b, k) && !k.Anonymous? && b.anon == a.anon
    ensures AnonymousAgrees(t, b)
  {}

  /** A change in key k leaves the scopes of the other local names alone. */
  lemma LocalsFrame(scopes: seq<Scope>, a: Table, b: Table, k: Key)
    requires |scopes| == |a.open| + 1 && OnlyKey(a, b, k)
    requires forall i :: 0 <= i < |a.open| ==> LocalAgrees(scopes[i + 1], a.open[i], a)
    ensures forall i :: 0 <= i < |a.open| && !(k.Local? && k.scope == a.open[i]) ==> LocalAgrees(scopes[i + 1], a.open[i], b)
  {
    hide LocalAgrees, OnlyKey;
    forall i | 0 <= i < |a.open| && !(k.Local? && k.scope == a.open[i]) ensures LocalAgrees(scopes[i + 1], a.open[i], b) {
      LocalFrame(scopes[i + 1], a.open[i], a, b, k);
    }
  }

  /** define_inner on one scope, and the same on the table. */
  function Entered(t: Scope, name: string, size: nat): Scope {
    Scope(t.defs[name := size], t.undefs - Now(t.undefs, name, size).Keys)
  }

  function EnteredKey(a: Table, k: Key): Table {
    var now := NowKey(a.pend, k, a.size);
    a.(defs := a.defs[k := a.size], pend := a.pend - now.Keys, bound := a.bound + now, time := a.time + 1)
  }

  /** The references that become bound are the same. */
  ghost predicate SameWaiting(t: Scope, name: string, a: Table, k: Key) {
    && (forall r :: r in t.undefs && t.undefs[r] == name ==> r in a.pend && a.pend[r] == k)
    && (forall r :: r in a.pend && a.pend[r] == k ==> r in t.undefs && t.undefs[r] == name)
  }

  lemma BoundSame(t: Scope, name: string, a: Table, k: Key)
    requires SameWaiting(t, name, a, k)
    ensures Now(t.undefs, name, a.size) == NowKey(a.pend, k, a.size)
  {
    var n1, n2 := Now(t.undefs, name, a.size), NowKey(a.pend, k, a.size);
    assert forall r :: r in n1 <==> r in n2;
  }

  lemma EnteredOnly(a: Table, k: Key)
    ensures OnlyKey(a, EnteredKey(a, k), k)
  {}

  lemma ScopesStay(a: Table, b: Table, k: Key)
    requires ScopesOk(a) && OnlyKey(a, b, k) && (k.Local? ==> k.scope < a.next)
    ensures ScopesOk(b)
  {}

  lemma EnterGlobal(t: Scope, a: Table, name: string)
    requires GlobalAgrees(t, a) && AnonymousAgrees(t, a) && !Dotted(name) && !Special(name)
    ensures SameWaiting(t, name, a, Global(name)) && (name in t.defs <==> Global(name) in a.defs)
    ensures name !in t.defs ==>
      GlobalAgrees(Entered(t, name, a.size), EnteredKey(a, Global(name)))
      && AnonymousAgrees(Entered(t, name, a.size), EnteredKey(a, Global(name)))
  {
    if name !in t.defs {
      GlobalEntered(t, a, name);
      AnonymousEntered(t, a, name);
      hide AnonymousAgrees, Entered, EnteredKey;
    }
  }

  lemma GlobalEntered(t: Scope, a: Table, name: string)
    requires GlobalAgrees(t, a) && !Dotted(name) && !Special(name) && name !in t.defs
    ensures GlobalAgrees(Entered(t, name, a.size), EnteredKey(a, Global(name)))
  {
    var u := Entered(t, name, a.size);
    assert forall n :: n != name ==> (n in u.defs <==> n in t.defs);
    assert forall r :: r in u.undefs <==> r in t.undefs && t.undefs[r] != name;
  }

  lemma AnonymousEntered(t: Scope, a: Table, name: string)
    requires GlobalAgrees(t, a) && AnonymousAgrees(t, a) && !Dotted(name) && !Special(name) && name !in t.defs
    ensures AnonymousAgrees(Entered(t, name, a.size), EnteredKey(a, Global(name)))
  {
    var u := Entered(t, name, a.size);
    assert forall n :: n != name ==> (n in u.defs <==> n in t.defs);
    assert forall r :: r in u.undefs <==> r in t.undefs && t.undefs[r] != name;
  }

  lemma EnterLocal(t: Scope, id: nat, a: Table, name: string)
    requires LocalAgrees(t, id, a) && Dotted(name)
    ensures SameWaiting(t, name, a, Local(id, name)) && (name in t.defs <==> Local(id, name) in a.defs)
    ensures name !in t.defs ==> LocalAgrees(Entered(t, name, a.size), id, EnteredKey(a, Local(id, name)))
  {}

  /** L("@@"): the name that stands for the last one is given up, and the other one is defined. */
  lemma EnterAnonymous(t: Scope, a: Table)
    requires GlobalAgrees(t, a) && AnonymousAgrees(t, a)
    ensures var name := Waiting(a.anon); var u := t.(defs := t.defs - {Standing(a.anon)});
      var b := EnteredKey(a, Anonymous(a.anon)).(anon := a.anon + 1);
      && SameWaiting(u, name, a, Anonymous(a.anon)) && name !in u.defs && Anonymous(a.anon) !in a.defs
      && GlobalAgrees(Entered(u, name, a.size), b) && AnonymousAgrees(Entered(u, name, a.size), b)
  {
    var name := Waiting(a.anon);
    var u := t.(defs := t.defs - {Standing(a.anon)});
    var v := Entered(u, name, a.size);
    AnonymousWaits(t, a);
    hide GlobalAgrees, AnonymousAgrees, SameWaiting;
    assert forall n :: n != name ==> (n in v.defs <==> n in u.defs) && (n in v.defs ==> v.defs[n] == u.defs[n]);
    assert forall r :: r in v.undefs <==> r in t.undefs && t.undefs[r] != name;
    hide Entered, EnteredKey;
    EnterAnonymousSelf(t, v, a);
    EnterAnonymousGlobal(t, v, a, EnteredKey(a, Anonymous(a.anon)).(anon := a.anon + 1));
  }

  lemma AnonymousWaits(t: Scope, a: Table)
    requires GlobalAgrees(t, a) && AnonymousAgrees(t, a)
    ensures var u := t.(defs := t.defs - {Standing(a.anon)});
      SameWaiting(u, Waiting(a.anon), a, Anonymous(a.anon)) && Waiting(a.anon) !in u.defs && Anonymous(a.anon) !in a.defs
  {}

  lemma EnterAnonymousSelf(t: Scope, v: Scope, a: Table)
    requires AnonymousAgrees(t, a) && Waiting(a.anon) in v.defs && v.defs[Waiting(a.anon)] == a.size
    requires Standing(a.anon) !in v.defs
    requires forall r :: r in v.undefs <==> r in t.undefs && t.undefs[r] != Waiting(a.anon)
    requires forall r :: r in v.undefs ==> v.undefs[r] == t.undefs[r]
    ensures AnonymousAgrees(v, EnteredKey(a, Anonymous(a.anon)).(anon := a.anon + 1))
  {
    var b := EnteredKey(a, Anonymous(a.anon)).(anon := a.anon + 1);
    assert b.defs[Anonymous(a.anon)] == a.size;
  }

  lemma EnterAnonymousGlobal(t: Scope, v: Scope, a: Table, b: Table)
    requires GlobalAgrees(t, a) && b == EnteredKey(a, Anonymous(a.anon)).(anon := a.anon + 1)
    requires forall n :: !Special(n) ==> (n in v.defs <==> n in t.defs) && (n in v.defs ==> v.defs[n] == t.defs[n])
    requires forall r :: r in v.undefs ==> r in t.undefs && v.undefs[r] == t.undefs[r]
    requires forall r :: r in t.undefs && !Special(t.undefs[r]) ==> r in v.undefs
    ensures GlobalAgrees(v, b)
  {}

  /** One L in terms of one scope. */
  function Redefined(s: Names, i: nat, u: Scope, name: string): Names
    requires i < |s.scopes|
  {
    Names(s.scopes[i := Entered(u, name, s.size)], s.size, s.time + 1, s.bound + Now(u.undefs, name, s.size))
  }

  lemma StepDefines(s: Names, name: string)
    requires |s.scopes| >= 2 && !Special(name) && name != "@@"
    ensures var i := ScopeOf(s, name);
      Step(s, L(name)) == if name in s.scopes[i].defs then None else Some(Redefined(s, i, s.scopes[i], name))
  {}

  lemma TableDefines(a: Table, name: string)
    requires |a.open| >= 1 && !Special(name)
    ensures var k := KeyOf(a.open, a.anon, name, true);
      && k.Some?
      && TableStep(a, L(name)) == if k.value in a.defs then None
                                  else Some(EnteredKey(a, k.value).(anon := if name == "@@" then a.anon + 1 else a.anon))
  {}

  lemma StepDefinesAnonymous(s: Names, a: Table)
    requires |s.scopes| >= 2 && AnonymousAgrees(s.scopes[0], a)
    ensures var u := s.scopes[0].(defs := s.scopes[0].defs - {Standing(a.anon)});
      && Waiting(a.anon) !in u.defs && Step(s, L("@@")) == Some(Redefined(s, 0, u, Waiting(a.anon)))
  {
    NextNameIs(s, a);
    hide NextName, AnonymousAgrees;
    var u := s.scopes[0].(defs := s.scopes[0].defs - {Standing(a.anon)});
    var v := Entered(u, Waiting(a.anon), s.size);
    assert s.scopes[0 := u][0 := v] == s.scopes[0 := v];
  }

  lemma NextNameIs(s: Names, a: Table)
    requires |s.scopes| >= 2 && AnonymousAgrees(s.scopes[0], a)
    ensures NextName(s) == (Waiting(a.anon), WithScope(s, 0, s.scopes[0].(defs := s.scopes[0].defs - {Standing(a.anon)})))
    ensures Waiting(a.anon) !in s.scopes[0].defs
  {}

  lemma EnteredPend(a: Table, k: Key)
    requires forall r :: r in a.pend ==> r < a.time
    ensures forall r :: r in EnteredKey(a, k).pend ==> r < a.time + 1
  {}

  lemma DefineGlobal(s: Names, a: Table, name: string)
    requires Agree(s, a) && !Dotted(name) && !Special(name) && name != "@@"
    ensures Step(s, L(name)).Some? <==> TableStep(a, L(name)).Some?
    ensures Step(s, L(name)).Some? ==> Agree(Step(s, L(name)).value, TableStep(a, L(name)).value)
  {
    hide GlobalAgrees, AnonymousAgrees, LocalAgrees, ScopesOk, OnlyKey, SameWaiting, Step, TableStep, Entered, Now, NowKey;
    var t, k := s.scopes[0], Global(name);
    StepDefines(s, name);
    TableDefines(a, name);
    EnterGlobal(t, a, name);
    if name !in t.defs {
      var b := EnteredKey(a, k);
      EnteredOnly(a, k);
      EnteredPend(a, k);
      ScopesStay(a, b, k);
      LocalsFrame(s.scopes, a, b, k);
      BoundSame(t, name, a, k);
    }
  }

  lemma DefineLocal(s: Names, a: Table, name: string)
    requires Agree(s, a) && Dotted(name)
    ensures Step(s, L(name)).Some? <==> TableStep(a, L(name)).Some?
    ensures Step(s, L(name)).Some? ==> Agree(Step(s, L(name)).value, TableStep(a, L(name)).value)
  {
    hide GlobalAgrees, AnonymousAgrees, LocalAgrees, OnlyKey, SameWaiting, Step, TableStep, Entered, Now, NowKey;
    var n := |a.open|;
    var t, id := s.scopes[n], a.open[n - 1];
    var k := Local(id, name);
    assert LocalAgrees(s.scopes[n - 1 + 1], a.open[n - 1], a);
    StepDefines(s, name);
    TableDefines(a, name);
    EnterLocal(t, id, a, name);
    if name !in t.defs {
      var b := EnteredKey(a, k);
      EnteredOnly(a, k);
      EnteredPend(a, k);
      ScopesStay(a, b, k);
      LocalsFrame(s.scopes, a, b, k);
      GlobalFrame(s.scopes[0], a, b, k);
      AnonymousFrame(s.scopes[0], a, b, k);
      BoundSame(t, name, a, k);
      Distinct(a);
    }
  }

  /** No scope is open twice. */
  lemma Distinct(a: Table)
    requires ScopesOk(a)
    ensures forall i :: 0 <= i < |a.open| - 1 ==> a.open[i] != a.open[|a.open| - 1]
  {}

  lemma DefineAnonymous(s: Names, a: Table)
    requires Agree(s, a)
    ensures Step(s, L("@@")).Some? && TableStep(a, L("@@")).Some?
    ensures Agree(Step(s, L("@@")).value, TableStep(a, L("@@")).value)
  {
    hide GlobalAgrees, AnonymousAgrees, LocalAgrees, OnlyKey, SameWaiting, ScopesOk, Step, TableStep, Entered, Now, NowKey;
    StepDefinesAnonymous(s, a);
    TableDefines(a, "@@");
    EnterAnonymous(s.scopes[0], a);
    var k := Anonymous(a.anon);
    var b := EnteredKey(a, k);
    EnteredOnly(a, k);
    EnteredPend(a, k);
    ScopesStay(a, b, k);
    LocalsFrame(s.scopes, a, b, k);
    AnonStays(a, s.scopes, b);
    BoundSame(s.scopes[0].(defs := s.scopes[0].defs - {Standing(a.anon)}), Waiting(a.anon), a, k);
    var s', a' := Step(s, L("@@")).value, TableStep(a, L("@@")).value;
    assert a' == b.(anon := b.anon + 1);
    assert s'.bound == a'.bound && s'.size == a'.size && s'.time == a'.time && |s'.scopes| == |a'.open| + 1;
    hide EnteredKey, Standing, Waiting;
    assert ScopesOk(a');
    assert GlobalAgrees(s'.scopes[0], a') && AnonymousAgrees(s'.scopes[0], a');
    assert forall i :: 0 <= i < |a'.open| ==> LocalAgrees(s'.scopes[i + 1], a'.open[i], a');
    assert forall r :: r in a'.pend ==> r < a'.time;
  }

  /** anon matters to the anonymous labels only. */
  lemma AnonStays(a: Table, scopes: seq<Scope>, b: Table)
    requires |scopes| == |b.open| + 1
    ensures var c := b.(anon := b.anon + 1);
      && (ScopesOk(b) ==> ScopesOk(c))
      && (forall i :: 0 <= i < |b.open| && LocalAgrees(scopes[i + 1], b.open[i], b) ==> LocalAgrees(scopes[i + 1], c.open[i], c))
  {}

  /** A reference that has to wait. */
  function Waits(a: Table, k: Key): Table {
    a.(pend := a.pend[a.time := k], time := a.time + 1)
  }

  function Left(t: Scope, r: nat, name: string): Scope {
    t.(undefs := t.undefs[r := name])
  }

  lemma WaitsOnly(a: Table, k: Key)
    requires (forall r :: r in a.pend ==> r < a.time)
    ensures OnlyKey(a, Waits(a, k), k) && forall r :: r in Waits(a, k).pend ==> r < a.time + 1
  {}

  lemma TimePasses(s: Names, a: Table, bound: map<nat, nat>)
    requires Agree(s, a)
    ensures Agree(s.(bound := bound, time := s.time + 1), a.(bound := bound, time := a.time + 1))
  {
    var b := a.(bound := bound, time := a.time + 1);
    forall i | 0 <= i < |a.open| ensures LocalAgrees(s.scopes[i + 1], a.open[i], b) {
      assert LocalAgrees(s.scopes[i + 1], a.open[i], a);
    }
  }

  lemma WaitGlobal(t: Scope, a: Table, name: string)
    requires GlobalAgrees(t, a) && AnonymousAgrees(t, a) && !Dotted(name) && !Special(name)
    requires forall r :: r in a.pend ==> r < a.time
    ensures name in t.defs <==> Global(name) in a.defs
    ensures name in t.defs ==> t.defs[name] == a.defs[Global(name)]
    ensures GlobalAgrees(Left(t, a.time, name), Waits(a, Global(name)))
    ensures AnonymousAgrees(Left(t, a.time, name), Waits(a, Global(name)))
  {}

  lemma WaitLocal(t: Scope, id: nat, a: Table, name: string)
    requires LocalAgrees(t, id, a) && Dotted(name)
    requires forall r :: r in a.pend ==> r < a.time
    ensures name in t.defs <==> Local(id, name) in a.defs
    ensures name in t.defs ==> t.defs[name] == a.defs[Local(id, name)]
    ensures LocalAgrees(Left(t, a.time, name), id, Waits(a, Local(id, name)))
  {}

  lemma WaitAnonymous(t: Scope, a: Table)
    requires GlobalAgrees(t, a) && AnonymousAgrees(t, a)
    requires forall r :: r in a.pend ==> r < a.time
    ensures Waiting(a.anon) !in t.defs && Anonymous(a.anon) !in a.defs
    ensures a.anon > 0 ==> Standing(a.anon) in t.defs && Anonymous(a.anon - 1) in a.defs
    ensures a.anon > 0 ==> t.defs[Standing(a.anon)] == a.defs[Anonymous(a.anon - 1)]
    ensures GlobalAgrees(Left(t, a.time, Waiting(a.anon)), Waits(a, Anonymous(a.anon)))
    ensures AnonymousAgrees(Left(t, a.time, Waiting(a.anon)), Waits(a, Anonymous(a.anon)))
  {
    WaitAnonymousSelf(t, a);
    WaitAnonymousGlobal(t, a);
    hide GlobalAgrees;
  }

  lemma WaitAnonymousSelf(t: Scope, a: Table)
    requires AnonymousAgrees(t, a)
    ensures AnonymousAgrees(Left(t, a.time, Waiting(a.anon)), Waits(a, Anonymous(a.anon)))
  {}

  lemma WaitAnonymousGlobal(t: Scope, a: Table)
    requires GlobalAgrees(t, a) && forall r :: r in a.pend ==> r < a.time
    ensures GlobalAgrees(Left(t, a.time, Waiting(a.anon)), Waits(a, Anonymous(a.anon)))
  {}

  lemma RenameIs(s: Names, a: Table, name: string)
    requires |s.scopes| >= 2 && AnonymousAgrees(s.scopes[0], a)
    ensures Rename(s, name) == if name == "@b" then if a.anon == 0 then None else Some(Standing(a.anon))
                               else if name == "@f" then Some(Waiting(a.anon)) else Some(name)
  {}

  lemma StepRefers(s: Names, name: string, key: string)
    requires |s.scopes| >= 2 && Rename(s, name) == Some(key)
    ensures var i := ScopeOf(s, key);
      Step(s, Ref(name)) ==
      Some(if key in s.scopes[i].defs then s.(bound := s.bound[s.time := s.scopes[i].defs[key]], time := s.time + 1)
           else Names(s.scopes[i := Left(s.scopes[i], s.time, key)], s.size, s.time + 1, s.bound))
  {}

  lemma TableRefers(a: Table, name: string)
    requires |a.open| >= 1
    ensures var k := KeyOf(a.open, a.anon, name, false);
      TableStep(a, Ref(name)) ==
      if k.None? then None
      else Some(if k.value in a.defs then a.(bound := a.bound[a.time := a.defs[k.value]], time := a.time + 1) else Waits(a, k.value))
  {}

  lemma ReferGlobal(s: Names, a: Table, name: string)
    requires Agree(s, a) && !Dotted(name) && !Special(name)
    ensures Step(s, Ref(name)).Some? && TableStep(a, Ref(name)).Some?
    ensures Agree(Step(s, Ref(name)).value, TableStep(a, Ref(name)).value)
  {
    hide GlobalAgrees, AnonymousAgrees, LocalAgrees, OnlyKey, ScopesOk, Step, TableStep, Left, Rename;
    RenameIs(s, a, name);
    StepRefers(s, name, name);
    TableRefers(a, name);
    WaitGlobal(s.scopes[0], a, name);
    var k := Global(name);
    if name in s.scopes[0].defs {
      TimePasses(s, a, s.bound[s.time := s.scopes[0].defs[name]]);
    } else {
      WaitsOnly(a, k);
      ScopesStay(a, Waits(a, k), k);
      LocalsFrame(s.scopes, a, Waits(a, k), k);
    }
  }

  lemma ReferAnonymous(s: Names, a: Table, name: string)
    requires Agree(s, a) && Special(name)
    ensures Step(s, Ref(name)).Some? <==> TableStep(a, Ref(name)).Some?
    ensures Step(s, Ref(name)).Some? ==> Agree(Step(s, Ref(name)).value, TableStep(a, Ref(name)).value)
  {
    hide GlobalAgrees, AnonymousAgrees, LocalAgrees, OnlyKey, ScopesOk, Left, Rename;
    RenameIs(s, a, name);
    TableRefers(a, name);
    WaitAnonymous(s.scopes[0], a);
    if Rename(s, name).Some? {
      StepRefers(s, name, Rename(s, name).value);
      hide Step, TableStep;
      if name == "@b" {
        TimePasses(s, a, s.bound[s.time := s.scopes[0].defs[Standing(a.anon)]]);
      } else {
        var k := Anonymous(a.anon);
        WaitsOnly(a, k);
        ScopesStay(a, Waits(a, k), k);
        LocalsFrame(s.scopes, a, Waits(a, k), k);
      }
    }
  }

  lemma ReferLocal(s: Names, a: Table, name: string)
    requires Agree(s, a) && Dotted(name)
    ensures Step(s, Ref(name)).Some? && TableStep(a, Ref(name)).Some?
    ensures Agree(Step(s, Ref(name)).value, TableStep(a, Ref(name)).value)
  {
    hide GlobalAgrees, AnonymousAgrees, LocalAgrees, OnlyKey, Step, TableStep, Left, Rename;
    var n := |a.open|;
    var t, id := s.scopes[n], a.open[n - 1];
    var k := Local(id, name);
    RenameIs(s, a, name);
    StepRefers(s, name, name);
    TableRefers(a, name);
    assert LocalAgrees(s.scopes[n - 1 + 1], a.open[n - 1], a);
    WaitLocal(t, id, a, name);
    Distinct(a);
    hide ScopesOk;
    if name in t.defs {
      TimePasses(s, a, s.bound[s.time := t.defs[name]]);
    } else {
      var b := Waits(a, k);
      WaitsOnly(a, k);
      LastOpen(a);
      ScopesStay(a, b, k);
      LocalsFrame(s.scopes, a, b, k);
      GlobalFrame(s.scopes[0], a, b, k);
      AnonymousFrame(s.scopes[0], a, b, k);
    }
  }

  lemma LastOpen(a: Table)
    requires ScopesOk(a)
    ensures a.open[|a.open| - 1] < a.next
  {}

  lemma EnterAgrees(s: Names, a: Table)
    requires Agree(s, a)
    ensures Agree(Step(s, Enter).value, TableStep(a, Enter).value)
  {
    var s', a' := Step(s, Enter).value, TableStep(a, Enter).value;
    forall i | 0 <= i < |a'.open| ensures LocalAgrees(s'.scopes[i + 1], a'.open[i], a') {
      if i < |a.open| { assert LocalAgrees(s.scopes[i + 1], a.open[i], a); }
    }
  }

  lemma LocalPending(t: Scope, id: nat, a: Table)
    requires LocalAgrees(t, id, a)
    ensures t.undefs != map[] <==> exists r :: r in a.pend && a.pend[r].Local? && a.pend[r].scope == id
  {
    if t.undefs != map[] {
      var r :| r in t.undefs;
      assert r in a.pend && a.pend[r].Local? && a.pend[r].scope == id;
    }
  }

  lemma LeaveKeeps(t: Scope, a: Table)
    requires |a.open| > 1
    ensures var b := a.(open := a.open[..|a.open| - 1], time := a.time + 1);
      && (ScopesOk(a) ==> ScopesOk(b)) && (GlobalAgrees(t, a) ==> GlobalAgrees(t, b))
      && (AnonymousAgrees(t, a) ==> AnonymousAgrees(t, b))
  {}

  lemma LeaveLocals(t: Scope, id: nat, a: Table)
    requires LocalAgrees(t, id, a) && |a.open| > 1
    ensures LocalAgrees(t, id, a.(open := a.open[..|a.open| - 1], time := a.time + 1))
  {}

  lemma LeaveAgrees(s: Names, a: Table)
    requires Agree(s, a)
    ensures Step(s, Leave).Some? <==> TableStep(a, Leave).Some?
    ensures Step(s, Leave).Some? ==> Agree(Step(s, Leave).value, TableStep(a, Leave).value)
  {
    hide GlobalAgrees, AnonymousAgrees, LocalAgrees, ScopesOk;
    var n := |a.open|;
    assert LocalAgrees(s.scopes[n - 1 + 1], a.open[n - 1], a);
    LocalPending(s.scopes[n], a.open[n - 1], a);
    if Step(s, Leave).Some? {
      var s', a' := Step(s, Leave).value, TableStep(a, Leave).value;
      LeaveKeeps(s.scopes[0], a);
      forall i | 0 <= i < |a'.open| ensures LocalAgrees(s'.scopes[i + 1], a'.open[i], a') {
        LeaveLocals(s.scopes[i + 1], a.open[i], a);
      }
    }
  }

  lemma CodeAgrees(s: Names, a: Table, n: nat)
    requires Agree(s, a)
    ensures Agree(Step(s, Code(n)).value, TableStep(a, Code(n)).value)
  {
    var b := TableStep(a, Code(n)).value;
    forall i | 0 <= i < |a.open| ensures LocalAgrees(s.scopes[i + 1], a.open[i], b) {
      assert LocalAgrees(s.scopes[i + 1], a.open[i], a);
    }
  }

  /** Every operation succeeds on the manager exactly if it does on the table, and they still agree. */
  lemma StepAgrees(s: Names, a: Table, op: Op)
    requires Agree(s, a)
    ensures Step(s, op).Some? <==> TableStep(a, op).Some?
    ensures Step(s, op).Some? ==> Agree(Step(s, op).value, TableStep(a, op).value)
  {
    hide GlobalAgrees, AnonymousAgrees, LocalAgrees, ScopesOk;
    match op
    case L(name) =>
      if Special(name) { hide Agree; }
      else if name == "@@" { DefineAnonymous(s, a); }
      else if Dotted(name) { DefineLocal(s, a, name); }
      else { DefineGlobal(s, a, name); }
    case Ref(name) =>
      if Special(name) { ReferAnonymous(s, a, name); }
      else if Dotted(name) { ReferLocal(s, a, name); }
      else { ReferGlobal(s, a, name); }
    case Enter => EnterAgrees(s, a);
    case Leave => LeaveAgrees(s, a);
    case Code(n) => CodeAgrees(s, a, n);
  }

  lemma {:induction false} RunAgrees(ops: seq<Op>)
    ensures Run(ops).Some? <==> TableRun(ops).Some?
    ensures Run(ops).Some? ==> Agree(Run(ops).value, TableRun(ops).value)
  {
    hide Agree, Step, TableStep;
    if ops == [] { FreshAgrees(); }
    else {
      var before := ops[..|ops| - 1];
      RunAgrees(before);
      if Run(before).Some? { StepAgrees(Run(before).value, TableRun(before).value, ops[|ops| - 1]); }
    }
  }

  /** The scopes open after a sequence of operations, and the number of the next one. */
  function Open(ops: seq<Op>): (r: (seq<nat>, nat))
    ensures |r.0| >= 1
  {
    if ops == [] then ([0], 1)
    else
      var (open, next) := Open(ops[..|ops| - 1]);
      match ops[|ops| - 1]
      case Enter => (open + [next], next + 1)
      case Leave => if |open| > 1 then (open[..|open| - 1], next) else (open, next)
      case _ => (open, next)
  }

  /** How many @@ there have been. */
  function Count(ops: seq<Op>): nat {
    if ops == [] then 0 else Count(ops[..|ops| - 1]) + (if ops[|ops| - 1] == L("@@") then 1 else 0)
  }

  /** The bytes emitted. */
  function Size(ops: seq<Op>): nat {
    if ops == [] then 0 else Size(ops[..|ops| - 1]) + (if ops[|ops| - 1].Code? then ops[|ops| - 1].n else 0)
  }

  /** The key operation i stands for, read off the sequence alone. */
  function KeyAt(ops: seq<Op>, i: nat): Option<Key>
    requires i < |ops| && (ops[i].L? || ops[i].Ref?)
  {
    KeyOf(Open(ops[..i]).0, Count(ops[..i]), ops[i].name, ops[i].L?)
  }

  predicate Defines(ops: seq<Op>, j: nat, k: Key) {
    j < |ops| && ops[j].L? && KeyAt(ops, j) == Some(k)
  }

  /** What a table holds after ops: every definition at its offset, every reference bound to the definition of its
      key or still waiting. */
  ghost predicate Holds(ops: seq<Op>, a: Table) {
    && a.open == Open(ops).0 && a.next == Open(ops).1 && a.anon == Count(ops) && a.size == Size(ops) && a.time == |ops|
    && DefsHold(ops, a.defs)
    && (forall i :: 0 <= i < |ops| && ops[i].Ref? ==> RefHolds(ops, a, i))
    && (forall r :: r in a.pend ==> r < |ops| && ops[r].Ref?)
  }

  ghost predicate RefHolds(ops: seq<Op>, a: Table, i: nat)
    requires i < |ops| && ops[i].Ref?
  {
    var k := KeyAt(ops, i);
    && k.Some?
    && (if k.value in a.defs then i in a.bound && a.bound[i] == a.defs[k.value] && i !in a.pend
        else i in a.pend && a.pend[i] == k.value && i !in a.bound)
  }

  /** The sequences without an error: no key defined twice, nothing but @@ itself named @b or @f by L, an @@ before
      every @b, and every scope that is left was entered and has no reference waiting. */
  ghost predicate Legal(ops: seq<Op>) {
    && (forall j :: 0 <= j < |ops| && (ops[j].L? || ops[j].Ref?) ==> KeyAt(ops, j).Some?)
    && (forall i: nat, j: nat, k :: Defines(ops, i, k) && Defines(ops, j, k) ==> i == j)
    && (forall j :: 0 <= j < |ops| && ops[j].Leave? ==> MayLeave(ops[..j]))
  }

  /** Operation i refers to a local name of the scope. */
  predicate WaitsIn(ops: seq<Op>, i: nat, scope: nat) {
    i < |ops| && ops[i].Ref? && KeyAt(ops, i).Some? && KeyAt(ops, i).value.Local? && KeyAt(ops, i).value.scope == scope
  }

  ghost predicate MayLeave(ops: seq<Op>) {
    var open := Open(ops).0;
    && |open| > 1
    && forall i: nat :: WaitsIn(ops, i, open[|open| - 1]) ==> exists j: nat :: Defines(ops, j, KeyAt(ops, i).value)
  }

  ghost predicate MayFollow(ops: seq<Op>, x: Op) {
    match x
    case L(name) =>
      var k := KeyOf(Open(ops).0, Count(ops), name, true);
      k.Some? && forall j: nat :: !Defines(ops, j, k.value)
    case Ref(name) => KeyOf(Open(ops).0, Count(ops), name, false).Some?
    case Leave => MayLeave(ops)
    case _ => true
  }

  lemma KeyStays(ops: seq<Op>, x: Op)
    ensures forall i :: 0 <= i < |ops| && (ops[i].L? || ops[i].Ref?) ==> KeyAt(ops + [x], i) == KeyAt(ops, i)
    ensures forall j: nat, k :: j < |ops| ==> (Defines(ops + [x], j, k) <==> Defines(ops, j, k))
    ensures x.L? || x.Ref? ==> KeyAt(ops + [x], |ops|) == KeyOf(Open(ops).0, Count(ops), x.name, x.L?)
  {
    var all := ops + [x];
    forall i | 0 <= i <= |ops| ensures all[..i] == ops[..i] {}
    assert ops[..|ops|] == ops;
  }

  lemma StaticStep(ops: seq<Op>, x: Op)
    ensures Count(ops + [x]) == Count(ops) + (if x == L("@@") then 1 else 0)
    ensures Size(ops + [x]) == Size(ops) + (if x.Code? then x.n else 0)
    ensures Open(ops + [x]) == var (open, next) := Open(ops);
      match x
      case Enter => (open + [next], next + 1)
      case Leave => if |open| > 1 then (open[..|open| - 1], next) else (open, next)
      case _ => (open, next)
  {
    assert (ops + [x])[..|ops|] == ops;
  }

  lemma LegalMore(ops: seq<Op>, x: Op)
    ensures Legal(ops + [x]) <==> Legal(ops) && MayFollow(ops, x)
  {
    var all := ops + [x];
    KeyStays(ops, x);
    hide Open, Count, KeyOf, MayLeave;
    forall i | 0 <= i <= |ops| ensures all[..i] == ops[..i] {}
    assert ops[..|ops|] == ops;
    assert all[|ops|] == x;
    assert forall i :: 0 <= i < |ops| ==> all[i] == ops[i];
    if Legal(all) { LegalPrefix(ops, x); }
    else if Legal(ops) && MayFollow(ops, x) { LegalExtends(ops, x); }
  }

  lemma LegalPrefix(ops: seq<Op>, x: Op)
    requires Legal(ops + [x])
    ensures Legal(ops) && MayFollow(ops, x)
  {
    var all := ops + [x];
    KeyStays(ops, x);
    hide Open, Count, KeyOf, MayLeave, KeyAt;
    forall i | 0 <= i <= |ops| ensures all[..i] == ops[..i] {}
    assert all[..|ops|] == ops;
    assert all[|ops|] == x;
    assert forall i :: 0 <= i < |ops| ==> all[i] == ops[i];
    if x.L? {
      var k := KeyAt(all, |ops|).value;
      assert Defines(all, |ops|, k);
    }
  }

  lemma LegalExtends(ops: seq<Op>, x: Op)
    requires Legal(ops) && MayFollow(ops, x)
    ensures Legal(ops + [x])
  {
    var all := ops + [x];
    KeyStays(ops, x);
    hide Open, Count, KeyOf, MayLeave, KeyAt;
    forall i | 0 <= i <= |ops| ensures all[..i] == ops[..i] {}
    assert all[..|ops|] == ops;
    assert all[|ops|] == x;
    assert forall i :: 0 <= i < |ops| ==> all[i] == ops[i];
  }

  lemma HoldsFirst()
    ensures Holds([], EMPTY)
  {}

  /** One step of the table fails exactly where the sequence stops being legal. */
  lemma HoldsStep(ops: seq<Op>, a: Table, x: Op)
    requires Holds(ops, a)
    ensures TableStep(a, x).Some? <==> MayFollow(ops, x)
  {
    hide Open, Count, Size;
    match x
    case L(name) =>
      hide KeyOf, RefHolds;
    case Ref(name) =>
      hide KeyOf, RefHolds;
    case Leave => LeaveMeans(ops, a);
    case _ =>
  }

  lemma LeaveMeans(ops: seq<Op>, a: Table)
    requires Holds(ops, a)
    ensures TableStep(a, Leave).Some? <==> MayLeave(ops)
  {
    hide Open, Count, Size, KeyAt;
    var scope := a.open[|a.open| - 1];
    if r :| r in a.pend && a.pend[r].Local? && a.pend[r].scope == scope {
      assert RefHolds(ops, a, r);
      assert WaitsIn(ops, r, scope);
    }
    forall i: nat | WaitsIn(ops, i, scope) && !(exists r :: r in a.pend && a.pend[r].Local? && a.pend[r].scope == scope)
      ensures exists j: nat :: Defines(ops, j, KeyAt(ops, i).value)
    {
      assert RefHolds(ops, a, i);
    }
  }

  /** The facts about ops that stay when x is appended. */
  lemma Prefixes(ops: seq<Op>, x: Op)
    ensures forall j :: 0 <= j <= |ops| ==> (ops + [x])[..j] == ops[..j]
    ensures (ops + [x])[|ops|] == x && forall j :: 0 <= j < |ops| ==> (ops + [x])[j] == ops[j]
    ensures ops[..|ops|] == ops
  {}

  lemma RefKept(ops: seq<Op>, a: Table, all: seq<Op>, b: Table, i: nat, k: Key)
    requires i < |ops| <= |all| && ops[i].Ref? && all[i] == ops[i] && KeyAt(all, i) == KeyAt(ops, i) && RefHolds(ops, a, i)
    requires k !in a.defs && b == EnteredKey(a, k).(anon := b.anon)
    ensures RefHolds(all, b, i)
  {
    hide KeyAt;
  }

  ghost predicate DefsHold(ops: seq<Op>, defs: map<Key, nat>) {
    && (forall j: nat, k :: Defines(ops, j, k) ==> k in defs && defs[k] == Size(ops[..j]))
    && (forall k :: k in defs ==> exists j: nat :: Defines(ops, j, k))
  }

  lemma LastDefines(ops: seq<Op>, x: Op)
    ensures forall k :: Defines(ops + [x], |ops|, k) <==> x.L? && KeyAt(ops + [x], |ops|) == Some(k)
    ensures forall j: nat, k :: Defines(ops + [x], j, k) ==> j <= |ops|
  {
    Prefixes(ops, x);
    hide KeyAt;
  }

  lemma DefsKept(ops: seq<Op>, a: Table, x: Op, b: Table)
    requires DefsHold(ops, a.defs) && (x.L? ==> KeyAt(ops + [x], |ops|).Some?)
    requires b.defs == if x.L? then a.defs[KeyAt(ops + [x], |ops|).value := Size(ops)] else a.defs
    requires x.L? ==> KeyAt(ops + [x], |ops|).value !in a.defs
    ensures DefsHold(ops + [x], b.defs)
  {
    var all := ops + [x];
    hide Size, KeyAt, Defines;
    LastDefines(ops, x);
    KeyStays(ops, x);
    hide Open, Count, KeyOf;
    Prefixes(ops, x);
    forall j: nat, k | Defines(all, j, k) ensures k in b.defs && b.defs[k] == Size(all[..j]) {
      if j < |ops| { assert Defines(ops, j, k); }
    }
    forall k | k in b.defs ensures exists j: nat :: Defines(all, j, k) {
      if x.L? && k == KeyAt(all, |ops|).value { assert Defines(all, |ops|, k); }
      else { DefinedStays(ops, x, k); }
    }
  }

  lemma DefinedStays(ops: seq<Op>, x: Op, k: Key)
    requires exists j: nat :: Defines(ops, j, k)
    ensures exists j: nat :: Defines(ops + [x], j, k)
  {
    var j: nat :| Defines(ops, j, k);
    KeyStays(ops, x);
    assert Defines(ops + [x], j, k);
  }

  lemma HoldsAfterDefinition(ops: seq<Op>, a: Table, name: string)
    requires Holds(ops, a) && TableStep(a, L(name)).Some?
    ensures Holds(ops + [L(name)], TableStep(a, L(name)).value)
  {
    hide Open, Count, Size, KeyAt, KeyOf, TableStep, DefsHold;
    var x := L(name);
    var all, b := ops + [x], TableStep(a, x).value;
    TableSucceeds(a, name);
    var k := KeyOf(a.open, a.anon, name, true).value;
    KeyStays(ops, x);
    StaticStep(ops, x);
    Prefixes(ops, x);
    DefsKept(ops, a, x, b);
    forall i | 0 <= i < |all| && all[i].Ref? ensures RefHolds(all, b, i) {
      RefKept(ops, a, all, b, i, k);
    }
    hide RefHolds;
    assert forall r :: r in b.pend ==> r in a.pend;
  }

  lemma TableSucceeds(a: Table, name: string)
    requires |a.open| >= 1 && TableStep(a, L(name)).Some?
    ensures var k := KeyOf(a.open, a.anon, name, true); var b := TableStep(a, L(name)).value;
      && k.Some? && k.value !in a.defs && b == EnteredKey(a, k.value).(anon := b.anon)
      && b.anon == (if name == "@@" then a.anon + 1 else a.anon) && b.defs == a.defs[k.value := a.size]
  {}

  lemma RefStays(ops: seq<Op>, a: Table, all: seq<Op>, b: Table, i: nat)
    requires i < |ops| <= |all| && ops[i].Ref? && all[i] == ops[i] && KeyAt(all, i) == KeyAt(ops, i) && RefHolds(ops, a, i)
    requires b.defs == a.defs && (i in b.bound <==> i in a.bound) && (i in b.pend <==> i in a.pend)
    requires (i in a.bound ==> a.bound[i] == b.bound[i]) && (i in a.pend ==> a.pend[i] == b.pend[i])
    ensures RefHolds(all, b, i)
  {
    hide KeyAt;
  }

  lemma TableReferred(a: Table, name: string)
    requires |a.open| >= 1 && TableStep(a, Ref(name)).Some? && a.time !in a.bound && a.time !in a.pend
    ensures var k := KeyOf(a.open, a.anon, name, false); var b := TableStep(a, Ref(name)).value;
      && k.Some? && b.open == a.open && b.next == a.next && b.anon == a.anon && b.size == a.size && b.time == a.time + 1
      && b.defs == a.defs
      && (if k.value in a.defs then b.pend == a.pend && b.bound == a.bound[a.time := a.defs[k.value]]
          else b.bound == a.bound && b.pend == a.pend[a.time := k.value])
  {}

  lemma HoldsAfterReference(ops: seq<Op>, a: Table, name: string)
    requires Holds(ops, a) && TableStep(a, Ref(name)).Some?
    requires forall r :: r in a.bound ==> r < a.time
    ensures Holds(ops + [Ref(name)], TableStep(a, Ref(name)).value)
  {
    hide Open, Count, Size, KeyAt, KeyOf, TableStep, DefsHold;
    var x := Ref(name);
    var all, b := ops + [x], TableStep(a, x).value;
    TableReferred(a, name);
    KeyStays(ops, x);
    StaticStep(ops, x);
    Prefixes(ops, x);
    DefsKept(ops, a, x, b);
    forall i | 0 <= i < |all| && all[i].Ref? ensures RefHolds(all, b, i) {
      if i < |ops| { RefStays(ops, a, all, b, i); }
    }
    hide RefHolds;
  }

  lemma HoldsAfterOther(ops: seq<Op>, a: Table, x: Op)
    requires Holds(ops, a) && TableStep(a, x).Some? && !x.L? && !x.Ref?
    ensures Holds(ops + [x], TableStep(a, x).value)
  {
    var all, b := ops + [x], TableStep(a, x).value;
    KeyStays(ops, x);
    StaticStep(ops, x);
    Prefixes(ops, x);
    hide Open, Count, Size, KeyAt, KeyOf;
    forall i | 0 <= i < |all| && all[i].Ref? ensures RefHolds(all, b, i) {
      assert RefHolds(ops, a, i);
    }
    DefsKept(ops, a, x, b);
    hide RefHolds;
  }

  lemma BoundBefore(a: Table, x: Op)
    requires |a.open| >= 1 && (forall r :: r in a.bound ==> r < a.time) && (forall r :: r in a.pend ==> r < a.time)
    requires TableStep(a, x).Some?
    ensures var b := TableStep(a, x).value; (forall r :: r in b.bound ==> r < b.time) && (forall r :: r in b.pend ==> r < b.time)
  {}

  /** The table runs without an error exactly on the legal sequences, and then holds what was described. */
  lemma {:induction false} TableRunIs(ops: seq<Op>)
    ensures TableRun(ops).Some? <==> Legal(ops)
    ensures TableRun(ops).Some? ==>
      && Holds(ops, TableRun(ops).value)
      && (forall r :: r in TableRun(ops).value.bound ==> r < |ops|)
  {
    hide Holds, Legal, TableStep, MayFollow;
    if ops == [] {
      HoldsFirst();
      LegalFirst();
    } else {
      var before, x := ops[..|ops| - 1], ops[|ops| - 1];
      assert ops == before + [x];
      TableRunIs(before);
      LegalMore(before, x);
      if TableRun(before).Some? {
        var a := TableRun(before).value;
        HoldsStep(before, a, x);
        HoldsTime(before, a);
        if TableStep(a, x).Some? {
          if x.L? { HoldsAfterDefinition(before, a, x.name); }
          else if x.Ref? { HoldsAfterReference(before, a, x.name); }
          else { HoldsAfterOther(before, a, x); }
          BoundBefore(a, x);
          HoldsTime(ops, TableStep(a, x).value);
        }
      }
    }
  }

  lemma HoldsTime(ops: seq<Op>, a: Table)
    requires Holds(ops, a)
    ensures a.time == |ops| && forall r :: r in a.pend ==> r < a.time
  {}

  lemma LegalFirst()
    ensures Legal([])
  {}

  /** The manager runs without an error exactly on the legal sequences, and then each reference leads to the
      definition of its key, wherever that stands, or is still pending if there is none. */
  lemma EveryReferenceLeads(ops: seq<Op>)
    ensures Run(ops).Some? <==> Legal(ops)
    ensures Run(ops).Some? ==> forall i, j: nat ::
      0 <= i < |ops| && ops[i].Ref? && KeyAt(ops, i).Some? && Defines(ops, j, KeyAt(ops, i).value) ==>
      i in Run(ops).value.bound && Run(ops).value.bound[i] == Size(ops[..j])
    ensures Run(ops).Some? ==> forall i ::
      0 <= i < |ops| && ops[i].Ref? && KeyAt(ops, i).Some? && (forall j: nat :: !Defines(ops, j, KeyAt(ops, i).value)) ==>
      i !in Run(ops).value.bound
  {
    RunAgrees(ops);
    TableRunIs(ops);
    hide KeyAt, Legal, Size;
    if Run(ops).Some? {
      var a := TableRun(ops).value;
      forall i, j: nat | 0 <= i < |ops| && ops[i].Ref? && KeyAt(ops, i).Some? && Defines(ops, j, KeyAt(ops, i).value)
        ensures i in a.bound && a.bound[i] == Size(ops[..j])
      {
        assert RefHolds(ops, a, i);
      }
      forall i | 0 <= i < |ops| && ops[i].Ref? && KeyAt(ops, i).Some? && (forall j: nat :: !Defines(ops, j, KeyAt(ops, i).value))
        ensures i !in a.bound
      {
        assert RefHolds(ops, a, i);
      }
    }
  }

  lemma {:induction false} CountBetween(ops: seq<Op>, i: nat, j: nat)
    requires i <= j <= |ops| && forall k :: i <= k < j ==> ops[k] != L("@@")
    ensures Count(ops[..i]) == Count(ops[..j])
    decreases j - i
  {
    if i < j {
      CountBetween(ops, i, j - 1);
      assert ops[..j] == ops[..j - 1] + [ops[j - 1]];
      StaticStep(ops[..j - 1], ops[j - 1]);
    }
  }

  lemma AnonymousDefines(ops: seq<Op>, j: nat)
    requires j < |ops| && ops[j] == L("@@")
    ensures Defines(ops, j, Anonymous(Count(ops[..j]))) && Count(ops[..j + 1]) == Count(ops[..j]) + 1
  {
    assert ops[..j + 1] == ops[..j] + [ops[j]];
    StaticStep(ops[..j], ops[j]);
  }

  lemma BackKey(ops: seq<Op>, i: nat)
    requires i < |ops| && ops[i] == Ref("@b") && Count(ops[..i]) > 0
    ensures KeyAt(ops, i) == Some(Anonymous(Count(ops[..i]) - 1))
  {}

  lemma ForwardKey(ops: seq<Op>, i: nat)
    requires i < |ops| && ops[i] == Ref("@f")
    ensures KeyAt(ops, i) == Some(Anonymous(Count(ops[..i])))
  {}

  /** "@b" is the last "@@" before it. */
  lemma BackLabelBinds(ops: seq<Op>, i: nat, j: nat)
    requires Run(ops).Some? && j < i < |ops| && ops[i] == Ref("@b") && ops[j] == L("@@")
    requires forall k :: j < k < i ==> ops[k] != L("@@")
    ensures i in Run(ops).value.bound && Run(ops).value.bound[i] == Size(ops[..j])
  {
    hide *;
    CountBetween(ops, j + 1, i);
    AnonymousDefines(ops, j);
    BackKey(ops, i);
    EveryReferenceLeads(ops);
  }

  /** "@f" is the next "@@" after it. */
  lemma ForwardLabelBinds(ops: seq<Op>, i: nat, j: nat)
    requires Run(ops).Some? && i < j < |ops| && ops[i] == Ref("@f") && ops[j] == L("@@")
    requires forall k :: i < k < j ==> ops[k] != L("@@")
    ensures i in Run(ops).value.bound && Run(ops).value.bound[i] == Size(ops[..j])
  {
    hide *;
    CountBetween(ops, i, j);
    AnonymousDefines(ops, j);
    ForwardKey(ops, i);
    EveryReferenceLeads(ops);
  }

  lemma {:induction false} CountNone(ops: seq<Op>)
    requires L("@@") !in ops
    ensures Count(ops) == 0
  {
    if ops != [] { CountNone(ops[..|ops| - 1]); }
  }

  /** "@b" without an "@@" before it is an error. */
  lemma BackLabelNeedsOne(ops: seq<Op>, i: nat)
    requires i < |ops| && ops[i] == Ref("@b") && L("@@") !in ops[..i]
    ensures Run(ops).None?
  {
    CountNone(ops[..i]);
    EveryReferenceLeads(ops);
    assert KeyAt(ops, i).None?;
  }
}
