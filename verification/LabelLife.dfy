/** xbyak/xbyak.h: the life of Label objects: their numbers, their reference counts and the definition table. */
module LabelLife {
  import opened Bytes

  /** A Label object: its id (0 is none yet), and whether it knows its manager. */
  datatype Obj = Obj(id: nat, attached: bool)

  datatype Entry = Entry(offset: nat, refCount: nat)

  /** labels are the objects alive, by name; pend has the references waiting for an id, by the number of their
      operation, and bound where the others lead. */
  datatype State = State(labels: map<nat, Obj>, nextId: nat, defs: map<nat, Entry>, ptrs: set<nat>,
                         pend: map<nat, nat>, bound: map<nat, nat>, size: nat, time: nat)

  datatype Op =
    | New(o: nat)
    | Copy(o: nat, src: nat)       // copy constructor
    | Assign(o: nat, src: nat)     // operator=
    | Destroy(o: nat)
    | Define(o: nat)               // L(label)
    | AssignL(o: nat, src: nat)
    | Refer(o: nat)                // a jump, call or putL
    | Code(n: nat)

  const FRESH := State(map[], 1, map[], {}, map[], map[], 0, 0)

  /** getId: an object gets a number when it is first used. */
  function WithId(s: State, o: nat): State
    requires o in s.labels
  {
    if s.labels[o].id != 0 then s
    else s.(labels := s.labels[o := s.labels[o].(id := s.nextId)], nextId := s.nextId + 1)
  }

  /** clabelDefList_[id].refCount++, which makes an entry if there is none. */
  function Counted(defs: map<nat, Entry>, id: nat): map<nat, Entry> {
    if id in defs then defs[id := Entry(defs[id].offset, defs[id].refCount + 1)] else defs[id := Entry(0, 2)]
  }

  function Uncounted(defs: map<nat, Entry>, id: nat): map<nat, Entry> {
    if id !in defs then defs
    else if defs[id].refCount == 1 then defs - {id}
    else defs[id := Entry(defs[id].offset, if defs[id].refCount > 0 then defs[id].refCount - 1 else 0)]
  }

  function Waiting(pend: map<nat, nat>, id: nat, offset: nat): map<nat, nat> {
    map r | r in pend && pend[r] == id :: offset
  }

  /** define_inner. */
  function Enter(s: State, id: nat, offset: nat): Option<State> {
    if id in s.defs then None
    else
      var now := Waiting(s.pend, id, offset);
      Some(s.(defs := s.defs[id := Entry(offset, 1)], pend := s.pend - now.Keys, bound := s.bound + now))
  }

  function Attach(s: State, o: nat): State
    requires o in s.labels
  {
    s.(labels := s.labels[o := s.labels[o].(attached := true)], ptrs := s.ptrs + {o})
  }

  /** o becomes a copy of src. */
  function Share(s: State, o: nat, src: nat): State
    requires src in s.labels
  {
    var x := s.labels[src];
    var t := s.(labels := s.labels[o := x]);
    if x.attached then t.(defs := Counted(s.defs, x.id), ptrs := s.ptrs + {o}) else t
  }

  /** The objects an operation names must be alive, a new one must not be. */
  predicate Names(s: State, op: Op) {
    match op
    case New(o) => o !in s.labels
    case Copy(o, src) => o !in s.labels && src in s.labels
    case Assign(o, src) => o in s.labels && src in s.labels
    case AssignL(o, src) => o in s.labels && src in s.labels
    case Destroy(o) => o in s.labels
    case Define(o) => o in s.labels
    case Refer(o) => o in s.labels
    case Code(_) => true
  }

  function Do(s: State, op: Op): Option<State>
    requires Names(s, op)
  {
    match op
    case New(o) => Some(s.(labels := s.labels[o := Obj(0, false)]))
    case Copy(o, src) => Some(Share(s, o, src))
    case Assign(o, src) => if s.labels[o].id != 0 then None else Some(Share(s, o, src))
    case Destroy(o) =>
      var x := s.labels[o];
      var t := s.(labels := s.labels - {o});
      Some(if x.id != 0 && x.attached then t.(ptrs := s.ptrs - {o}, defs := Uncounted(s.defs, x.id)) else t)
    case Define(o) =>
      var t := WithId(s, o);
      var u :- Enter(t, t.labels[o].id, s.size);
      Some(Attach(u, o))
    case AssignL(o, src) =>
      if s.labels[src].id !in s.defs then None
      else
        var u :- Enter(s, s.labels[o].id, s.defs[s.labels[src].id].offset);
        Some(Attach(u, o))
    case Refer(o) =>
      var t := WithId(s, o);
      var id := t.labels[o].id;
      Some(if id in t.defs then t.(bound := t.bound[s.time := t.defs[id].offset]) else t.(pend := t.pend[s.time := id]))
    case Code(n) => Some(s.(size := s.size + n))
  }

  function Step(s: State, op: Op): Option<State>
    requires Names(s, op)
  {
    var t :- Do(s, op);
    Some(t.(time := s.time + 1))
  }

  /** The attached objects with a given id. */
  function Holders(labels: map<nat, Obj>, id: nat): set<nat> {
    set o | o in labels && labels[o].attached && labels[o].id == id
  }

  /** labelPtrList_ has exactly the attached objects; they have ids that were given out and are defined. */
  ghost predicate LabelsOk(labels: map<nat, Obj>, nextId: nat, ptrs: set<nat>, defs: map<nat, Entry>) {
    && (forall o :: o in labels ==> labels[o].id < nextId)
    && (forall o :: o in ptrs <==> o in labels && labels[o].attached)
    && (forall o :: o in labels && labels[o].attached ==> labels[o].id != 0 && labels[o].id in defs)
  }

  /** A reference count is the number of attached objects with the id, and is not zero. */
  ghost predicate CountsOk(labels: map<nat, Obj>, nextId: nat, defs: map<nat, Entry>) {
    forall id :: id in defs ==> 0 < id < nextId && defs[id].refCount == |Holders(labels, id)| > 0
  }

  /** No awaited id is defined. */
  ghost predicate PendOk(pend: map<nat, nat>, bound: map<nat, nat>, nextId: nat, defs: map<nat, Entry>, time: nat) {
    && (forall r :: r in pend ==> 0 < pend[r] < nextId && pend[r] !in defs && r < time)
    && (forall r :: r in bound ==> r < time && r !in pend)
  }

  /** The state of the manager between error-free operations. */
  ghost predicate Inv(s: State) {
    && s.nextId >= 1 && LabelsOk(s.labels, s.nextId, s.ptrs, s.defs) && CountsOk(s.labels, s.nextId, s.defs)
    && PendOk(s.pend, s.bound, s.nextId, s.defs, s.time)
  }

  /** The use assignL is documented for: its destination has been referenced. */
  predicate Proper(s: State, op: Op)
    requires Names(s, op)
  {
    op.AssignL? ==> s.labels[op.o].id != 0
  }

  lemma HoldersGrow(labels: map<nat, Obj>, o: nat, x: Obj, id: nat)
    requires o in labels ==> !labels[o].attached
    ensures Holders(labels[o := x], id) == if x.attached && x.id == id then Holders(labels, id) + {o} else Holders(labels, id)
    ensures o !in Holders(labels, id)
  {}

  lemma HoldersShrink(labels: map<nat, Obj>, o: nat, id: nat)
    requires o in labels
    ensures Holders(labels - {o}, id)
         == if labels[o].attached && labels[o].id == id then Holders(labels, id) - {o} else Holders(labels, id)
    ensures labels[o].attached && labels[o].id == id ==> o in Holders(labels, id)
  {}

  /** An object that is not attached does not count. */
  lemma CountsStay(labels: map<nat, Obj>, nextId: nat, defs: map<nat, Entry>, o: nat, x: Obj, next: nat)
    requires CountsOk(labels, nextId, defs) && (o in labels ==> !labels[o].attached) && !x.attached && nextId <= next
    ensures CountsOk(labels[o := x], next, defs)
  {
    forall id ensures Holders(labels[o := x], id) == Holders(labels, id) { HoldersGrow(labels, o, x, id); }
    hide Holders;
  }

  /** One more attached object. */
  lemma CountsGrow(labels: map<nat, Obj>, nextId: nat, defs: map<nat, Entry>, o: nat, x: Obj)
    requires CountsOk(labels, nextId, defs) && (o in labels ==> !labels[o].attached) && x.attached && x.id in defs
    ensures CountsOk(labels[o := x], nextId, Counted(defs, x.id))
  {
    hide Holders;
    forall id | id in Counted(defs, x.id)
      ensures 0 < id < nextId && Counted(defs, x.id)[id].refCount == |Holders(labels[o := x], id)| > 0
    {
      HoldersGrow(labels, o, x, id);
    }
  }

  /** One attached object less. */
  lemma CountsShrink(labels: map<nat, Obj>, nextId: nat, defs: map<nat, Entry>, o: nat)
    requires CountsOk(labels, nextId, defs) && o in labels && labels[o].attached && labels[o].id in defs
    ensures CountsOk(labels - {o}, nextId, Uncounted(defs, labels[o].id))
    ensures labels[o].id !in Uncounted(defs, labels[o].id) ==> Holders(labels - {o}, labels[o].id) == {}
  {
    hide Holders;
    HoldersShrink(labels, o, labels[o].id);
    forall id | id in Uncounted(defs, labels[o].id)
      ensures 0 < id < nextId && Uncounted(defs, labels[o].id)[id].refCount == |Holders(labels - {o}, id)| > 0
    {
      HoldersShrink(labels, o, id);
    }
  }

  lemma CountsUntouched(labels: map<nat, Obj>, nextId: nat, defs: map<nat, Entry>, o: nat)
    requires CountsOk(labels, nextId, defs) && o in labels && !labels[o].attached
    ensures CountsOk(labels - {o}, nextId, defs)
  {
    forall id ensures Holders(labels - {o}, id) == Holders(labels, id) { HoldersShrink(labels, o, id); }
    hide Holders;
  }

  /** A first holder of an id nobody holds. */
  lemma CountsFirst(labels: map<nat, Obj>, nextId: nat, defs: map<nat, Entry>, ptrs: set<nat>, o: nat, offset: nat)
    requires CountsOk(labels, nextId, defs) && LabelsOk(labels, nextId, ptrs, defs)
    requires o in labels && !labels[o].attached && labels[o].id != 0 && labels[o].id !in defs
    ensures CountsOk(labels[o := labels[o].(attached := true)], nextId, defs[labels[o].id := Entry(offset, 1)])
  {
    var x, d := labels[o].(attached := true), defs[labels[o].id := Entry(offset, 1)];
    NobodyHolds(labels, nextId, defs, ptrs, x.id);
    hide Holders;
    forall id | id in d ensures 0 < id < nextId && d[id].refCount == |Holders(labels[o := x], id)| > 0 {
      HoldersGrow(labels, o, x, id);
    }
  }

  lemma NobodyHolds(labels: map<nat, Obj>, nextId: nat, defs: map<nat, Entry>, ptrs: set<nat>, id: nat)
    requires LabelsOk(labels, nextId, ptrs, defs) && id !in defs
    ensures Holders(labels, id) == {}
  {}

  lemma NewKeeps(s: State, o: nat)
    requires Inv(s) && Names(s, New(o))
    ensures Inv(Step(s, New(o)).value)
  {
    CountsStay(s.labels, s.nextId, s.defs, o, Obj(0, false), s.nextId);
    hide CountsOk;
  }

  lemma ShareKeeps(s: State, o: nat, src: nat)
    requires Inv(s) && src in s.labels && (o in s.labels ==> s.labels[o].id == 0)
    ensures Inv(Share(s, o, src).(time := s.time + 1))
  {
    hide CountsOk, LabelsOk, PendOk, Counted;
    Attached(s, src);
    if o in s.labels { Attached(s, o); }
    if s.labels[src].attached { ShareAttached(s, o, src); } else { ShareDetached(s, o, src); }
  }

  lemma ShareAttached(s: State, o: nat, src: nat)
    requires Inv(s) && src in s.labels && (o in s.labels ==> !s.labels[o].attached)
    requires s.labels[src].attached && s.labels[src].id in s.defs
    ensures Inv(Share(s, o, src).(time := s.time + 1))
  {
    hide CountsOk, LabelsOk, PendOk, Counted;
    ShareLabels(s, o, src);
    CountsGrow(s.labels, s.nextId, s.defs, o, s.labels[src]);
    SharePend(s, s.labels[src].id);
  }

  lemma ShareDetached(s: State, o: nat, src: nat)
    requires Inv(s) && src in s.labels && (o in s.labels ==> !s.labels[o].attached) && !s.labels[src].attached
    ensures Inv(Share(s, o, src).(time := s.time + 1))
  {
    hide CountsOk, LabelsOk, PendOk, Counted;
    ShareLabels(s, o, src);
    CountsStay(s.labels, s.nextId, s.defs, o, s.labels[src], s.nextId);
    TimePasses(s);
  }

  lemma Attached(s: State, o: nat)
    requires Inv(s) && o in s.labels
    ensures s.labels[o].attached ==> s.labels[o].id != 0 && s.labels[o].id in s.defs
  {
    hide CountsOk;
  }

  lemma SharePend(s: State, id: nat)
    requires PendOk(s.pend, s.bound, s.nextId, s.defs, s.time) && id in s.defs
    ensures PendOk(s.pend, s.bound, s.nextId, Counted(s.defs, id), s.time + 1)
  {}

  lemma TimePasses(s: State)
    requires PendOk(s.pend, s.bound, s.nextId, s.defs, s.time)
    ensures PendOk(s.pend, s.bound, s.nextId, s.defs, s.time + 1)
  {}

  lemma ShareLabels(s: State, o: nat, src: nat)
    requires LabelsOk(s.labels, s.nextId, s.ptrs, s.defs) && src in s.labels && (o in s.labels ==> !s.labels[o].attached)
    ensures var t := Share(s, o, src); LabelsOk(t.labels, t.nextId, t.ptrs, t.defs)
  {}

  lemma DestroyKeeps(s: State, o: nat)
    requires Inv(s) && o in s.labels
    ensures Inv(Step(s, Destroy(o)).value)
  {
    if s.labels[o].attached {
      assert s.labels[o].id in s.defs;
      CountsShrink(s.labels, s.nextId, s.defs, o);
      DestroyLabels(s, o);
    } else {
      CountsUntouched(s.labels, s.nextId, s.defs, o);
    }
    hide CountsOk;
  }

  lemma DestroyLabels(s: State, o: nat)
    requires LabelsOk(s.labels, s.nextId, s.ptrs, s.defs) && o in s.labels && s.labels[o].attached
    requires var id := s.labels[o].id; id !in Uncounted(s.defs, id) ==> Holders(s.labels - {o}, id) == {}
    ensures LabelsOk(s.labels - {o}, s.nextId, s.ptrs - {o}, Uncounted(s.defs, s.labels[o].id))
  {
    var id := s.labels[o].id;
    forall p | p in s.labels - {o} && s.labels[p].attached ensures s.labels[p].id in Uncounted(s.defs, id) {
      if s.labels[p].id == id { Holds(s.labels - {o}, p); }
    }
    hide Holders;
  }

  lemma Holds(labels: map<nat, Obj>, p: nat)
    requires p in labels && labels[p].attached
    ensures p in Holders(labels, labels[p].id)
  {}

  lemma WithIdKeeps(s: State, o: nat)
    requires Inv(s) && o in s.labels
    ensures Inv(WithId(s, o)) && o in WithId(s, o).labels && WithId(s, o).labels[o].id != 0
  {
    if s.labels[o].id == 0 {
      CountsStay(s.labels, s.nextId, s.defs, o, s.labels[o].(id := s.nextId), s.nextId + 1);
      hide CountsOk;
    }
  }

  /** A definition of an id that was given out. */
  lemma EnterKeeps(s: State, o: nat, offset: nat)
    requires Inv(s) && o in s.labels && s.labels[o].id != 0 && Enter(s, s.labels[o].id, offset).Some?
    ensures Inv(Attach(Enter(s, s.labels[o].id, offset).value, o).(time := s.time + 1))
  {
    assert !s.labels[o].attached;
    CountsFirst(s.labels, s.nextId, s.defs, s.ptrs, o, offset);
    hide CountsOk;
    EnterPend(s, s.labels[o].id, offset);
    hide PendOk;
  }

  lemma EnterPend(s: State, id: nat, offset: nat)
    requires PendOk(s.pend, s.bound, s.nextId, s.defs, s.time) && Enter(s, id, offset).Some?
    ensures var u := Enter(s, id, offset).value; PendOk(u.pend, u.bound, u.nextId, u.defs, s.time + 1)
  {}

  lemma ReferKeeps(s: State, o: nat)
    requires Inv(s) && o in s.labels
    ensures Inv(Step(s, Refer(o)).value)
  {
    hide CountsOk, LabelsOk, PendOk, WithId;
    TimeStays(s, o);
    WithIdKeeps(s, o);
    var t := WithId(s, o);
    IdGivenOut(t, o);
    ReferPend(t, t.labels[o].id);
  }

  lemma ReferPend(t: State, id: nat)
    requires PendOk(t.pend, t.bound, t.nextId, t.defs, t.time) && 0 < id < t.nextId
    ensures id in t.defs ==> PendOk(t.pend, t.bound[t.time := t.defs[id].offset], t.nextId, t.defs, t.time + 1)
    ensures id !in t.defs ==> PendOk(t.pend[t.time := id], t.bound, t.nextId, t.defs, t.time + 1)
  {}

  lemma IdGivenOut(s: State, o: nat)
    requires Inv(s) && o in s.labels
    ensures s.labels[o].id < s.nextId
  {
    hide CountsOk;
  }

  lemma TimeStays(s: State, o: nat)
    requires o in s.labels
    ensures WithId(s, o).time == s.time && WithId(s, o).size == s.size && o in WithId(s, o).labels
  {}

  /** Every error-free operation keeps the invariant: a reference count is the number of attached objects, an id is
      defined exactly while there is one, and no id is both defined and awaited. */
  lemma StepKeeps(s: State, op: Op)
    requires Inv(s) && Names(s, op) && Proper(s, op) && Step(s, op).Some?
    ensures Inv(Step(s, op).value)
  {
    hide LabelsOk, CountsOk;
    match op
    case New(o) => NewKeeps(s, o);
    case Copy(o, src) => ShareKeeps(s, o, src);
    case Assign(o, src) => ShareKeeps(s, o, src);
    case Destroy(o) => DestroyKeeps(s, o);
    case Define(o) =>
      WithIdKeeps(s, o);
      EnterKeeps(WithId(s, o), o, s.size);
    case AssignL(o, src) => EnterKeeps(s, o, s.defs[s.labels[src].id].offset);
    case Refer(o) => ReferKeeps(s, o);
    case Code(n) =>
  }

  lemma FreshKeeps()
    ensures Inv(FRESH)
  {}

  /** A run in which every operation names living objects and every assignL destination was referenced first. */
  function Run(ops: seq<Op>): Option<State> {
    if ops == [] then Some(FRESH)
    else
      var s :- Run(ops[..|ops| - 1]);
      var op := ops[|ops| - 1];
      if Names(s, op) && Proper(s, op) then Step(s, op) else None
  }

  lemma {:induction false} RunKeeps(ops: seq<Op>)
    ensures Run(ops).Some? ==> Inv(Run(ops).value)
  {
    hide Inv, Step, Names, Proper;
    if ops == [] { FreshKeeps(); }
    else {
      RunKeeps(ops[..|ops| - 1]);
      if Run(ops).Some? { StepKeeps(Run(ops[..|ops| - 1]).value, ops[|ops| - 1]); }
    }
  }

  /** The number handed out next belongs to nothing yet. */
  lemma NextIdIsNew(s: State)
    requires Inv(s)
    ensures s.nextId !in s.defs && (forall o :: o in s.labels ==> s.labels[o].id != s.nextId)
    ensures forall r :: r in s.pend ==> s.pend[r] != s.nextId
  {
    hide Holders;
  }

  /** Numbers are handed out in order, and only to objects that have none. */
  lemma IdsAreNotReused(s: State, op: Op, o: nat)
    requires Inv(s) && Names(s, op) && Step(s, op).Some? && o in Step(s, op).value.labels
    ensures var t := Step(s, op).value;
      && s.nextId <= t.nextId
      && (t.labels[o].id >= s.nextId ==>
        && t.labels[o].id == s.nextId && t.nextId == s.nextId + 1
        && (op.Define? || op.Refer?) && op.o == o && o in s.labels && s.labels[o].id == 0)
  {
    hide CountsOk, PendOk;
  }

  lemma {:induction false} IdsGrow(ops: seq<Op>, i: nat)
    requires i <= |ops| && Run(ops).Some?
    ensures Run(ops[..i]).Some? && Run(ops[..i]).value.nextId <= Run(ops).value.nextId
    decreases |ops|
  {
    hide Inv, Names, Proper;
    if i == |ops| { assert ops[..i] == ops; }
    else {
      var init := ops[..|ops| - 1];
      assert init[..i] == ops[..i];
      IdsGrow(init, i);
      RunKeeps(init);
      StepGrows(Run(init).value, ops[|ops| - 1]);
    }
  }

  lemma StepGrows(s: State, op: Op)
    requires Names(s, op) && Step(s, op).Some?
    ensures s.nextId <= Step(s, op).value.nextId
  {}

  lemma IdIsGiven(s: State, op: Op, o: nat)
    requires Names(s, op) && (op == Define(o) || op == Refer(o)) && s.labels[o].id == 0 && Step(s, op).Some?
    ensures o in Step(s, op).value.labels && Step(s, op).value.labels[o].id == s.nextId
  {}

  lemma IdsBelow(s: State, p: nat)
    requires Inv(s) && p in s.labels
    ensures s.labels[p].id < s.nextId
  {
    hide CountsOk, PendOk;
  }

  /** Over whole runs: the id that L or a reference gives an object is one that no object had at any earlier time, alive
      or destroyed since. */
  lemma IdsAreGivenOnce(ops: seq<Op>, o: nat, i: nat, p: nat)
    requires ops != [] && Run(ops).Some? && i < |ops| && (ops[|ops| - 1] == Define(o) || ops[|ops| - 1] == Refer(o))
    requires Run(ops[..|ops| - 1]).Some? && o in Run(ops[..|ops| - 1]).value.labels && Run(ops[..|ops| - 1]).value.labels[o].id == 0
    requires Run(ops[..i]).Some? && p in Run(ops[..i]).value.labels
    ensures o in Run(ops).value.labels && Run(ops[..i]).value.labels[p].id < Run(ops).value.labels[o].id
  {
    hide Inv, Step, Names, Proper;
    var init := ops[..|ops| - 1];
    assert init[..i] == ops[..i];
    IdsGrow(init, i);
    RunKeeps(ops[..i]);
    IdsBelow(Run(ops[..i]).value, p);
    IdIsGiven(Run(init).value, ops[|ops| - 1], o);
  }

  /** An operation may drop a definition or add one, but never moves one. */
  lemma DefinitionStays(s: State, op: Op, id: nat)
    requires Names(s, op) && Step(s, op).Some? && id in s.defs && id in Step(s, op).value.defs
    ensures Step(s, op).value.defs[id].offset == s.defs[id].offset
  {}

  lemma ObjectStays(s: State, op: Op, o: nat)
    requires Names(s, op) && Step(s, op).Some? && op != Destroy(o)
    requires o in s.labels && s.labels[o].attached && s.labels[o].id != 0 && s.labels[o].id in s.defs
    ensures o in Step(s, op).value.labels && Step(s, op).value.labels[o] == s.labels[o]
  {}

  /** While an attached object lives, its id stays and leads to the same offset. */
  lemma OffsetStays(s: State, op: Op, o: nat)
    requires Inv(s) && Names(s, op) && Proper(s, op) && Step(s, op).Some?
    requires o in s.labels && s.labels[o].attached && op != Destroy(o)
    ensures s.labels[o].id in s.defs
    ensures var t := Step(s, op).value; var id := s.labels[o].id;
      o in t.labels && t.labels[o] == s.labels[o] && id in t.defs && t.defs[id].offset == s.defs[id].offset
  {
    hide CountsOk, PendOk, Step, Names, Proper;
    StepKeeps(s, op);
    ObjectStays(s, op, o);
    DefinitionStays(s, op, s.labels[o].id);
  }

  /** Over whole runs: what L or assignL gave an object, it has until it is destroyed. */
  lemma {:induction false} OffsetStaysInRuns(ops: seq<Op>, i: nat, o: nat)
    requires i <= |ops| && Run(ops).Some? && Run(ops[..i]).Some? && Destroy(o) !in ops[i..]
    requires var s := Run(ops[..i]).value; o in s.labels && s.labels[o].attached
    ensures var s, t := Run(ops[..i]).value, Run(ops).value; var id := s.labels[o].id;
      && id in s.defs && o in t.labels && t.labels[o] == s.labels[o] && id in t.defs && t.defs[id].offset == s.defs[id].offset
    decreases |ops| - i
  {
    RunKeeps(ops[..i]);
    hide CountsOk, PendOk, Step, Names, Proper;
    if i == |ops| {
      assert ops[..i] == ops;
    } else {
      var before, op := ops[..|ops| - 1], ops[|ops| - 1];
      assert before[..i] == ops[..i] && ops[i..] == before[i..] + [op];
      OffsetStaysInRuns(before, i, o);
      RunKeeps(before);
      OffsetStays(Run(before).value, op, o);
    }
  }

  /** The bytes emitted. */
  function Size(ops: seq<Op>): nat {
    if ops == [] then 0 else Size(ops[..|ops| - 1]) + (if ops[|ops| - 1].Code? then ops[|ops| - 1].n else 0)
  }

  lemma {:induction false} SizeIs(ops: seq<Op>)
    requires Run(ops).Some?
    ensures Run(ops).value.size == Size(ops) && Run(ops).value.time == |ops|
  {
    if ops != [] { SizeIs(ops[..|ops| - 1]); }
  }

  /** L puts the label where the code ends, and leads there what waits for it. */
  lemma DefineBinds(s: State, o: nat)
    requires Inv(s) && Names(s, Define(o)) && Step(s, Define(o)).Some?
    ensures var t := Step(s, Define(o)).value; var id := t.labels[o].id;
      && o in t.labels && t.labels[o].attached && id in t.defs && t.defs[id].offset == s.size
      && forall r :: r in s.pend && s.pend[r] == id ==> r in t.bound && t.bound[r] == s.size
  {
    hide CountsOk;
  }

  lemma ReferBinds(s: State, p: nat)
    requires Inv(s) && Names(s, Refer(p)) && s.labels[p].id in s.defs
    ensures Step(s, Refer(p)).Some?
    ensures var t := Step(s, Refer(p)).value; s.time in t.bound && t.bound[s.time] == s.defs[s.labels[p].id].offset
  {
    hide Holders;
  }

  lemma BoundStays(s: State, op: Op, r: nat)
    requires Inv(s) && Names(s, op) && Step(s, op).Some? && r in s.bound
    ensures r in Step(s, op).value.bound && Step(s, op).value.bound[r] == s.bound[r]
  {
    hide CountsOk, LabelsOk;
  }

  lemma {:induction false} BoundStaysInRuns(ops: seq<Op>, i: nat, r: nat)
    requires i <= |ops| && Run(ops).Some? && Run(ops[..i]).Some? && r in Run(ops[..i]).value.bound
    ensures r in Run(ops).value.bound && Run(ops).value.bound[r] == Run(ops[..i]).value.bound[r]
    decreases |ops| - i
  {
    hide Inv, Step, Names, Proper;
    if i == |ops| { assert ops[..i] == ops; }
    else {
      var before, op := ops[..|ops| - 1], ops[|ops| - 1];
      assert before[..i] == ops[..i];
      BoundStaysInRuns(before, i, r);
      RunKeeps(before);
      BoundStays(Run(before).value, op, r);
    }
  }

  lemma {:induction false} RunPrefix(ops: seq<Op>, i: nat)
    requires i <= |ops| && Run(ops).Some?
    ensures Run(ops[..i]).Some?
    ensures i < |ops| ==> var s := Run(ops[..i]).value;
      Names(s, ops[i]) && Proper(s, ops[i]) && Step(s, ops[i]).Some? && Run(ops[..i + 1]) == Step(s, ops[i])
    decreases |ops|
  {
    hide Step, Names, Proper;
    if i == |ops| { assert ops[..i] == ops; }
    else {
      var before := ops[..|ops| - 1];
      assert before[..i] == ops[..i];
      RunPrefix(before, i);
      if i == |before| { assert ops[..i + 1] == ops && before[..i] == before; } else { assert before[..i + 1] == ops[..i + 1]; }
    }
  }

  /** Over whole runs: L on an object binds it to the number of bytes emitted before, for as long as the object lives.
      What waited for it leads there in the end, and so does every later reference to the same id. */
  lemma LabelIsHere(ops: seq<Op>, i: nat, o: nat)
    requires i < |ops| && Run(ops).Some? && ops[i] == Define(o) && Destroy(o) !in ops[i + 1..]
    ensures Run(ops[..i]).Some? && Run(ops[..i + 1]).Some? && o in Run(ops[..i + 1]).value.labels
    ensures var id := Run(ops[..i + 1]).value.labels[o].id; var t := Run(ops).value;
      && id in t.defs && t.defs[id].offset == Size(ops[..i])
      && forall r :: r in Run(ops[..i]).value.pend && Run(ops[..i]).value.pend[r] == id ==> r in t.bound && t.bound[r] == Size(ops[..i])
  {
    hide Inv, Step, Names, Proper;
    RunPrefix(ops, i);
    RunKeeps(ops[..i]);
    SizeIs(ops[..i]);
    var s := Run(ops[..i]).value;
    DefineBinds(s, o);
    OffsetStaysInRuns(ops, i + 1, o);
    var id := Run(ops[..i + 1]).value.labels[o].id;
    forall r | r in s.pend && s.pend[r] == id ensures r in Run(ops).value.bound && Run(ops).value.bound[r] == Size(ops[..i]) {
      BoundStaysInRuns(ops, i + 1, r);
    }
  }

  lemma ReferenceLeadsHere(ops: seq<Op>, i: nat, o: nat, j: nat, p: nat)
    requires i < j < |ops| && Run(ops).Some? && ops[i] == Define(o) && Destroy(o) !in ops[i + 1..] && ops[j] == Refer(p)
    requires Run(ops[..i + 1]).Some? && o in Run(ops[..i + 1]).value.labels
    requires Run(ops[..j]).Some? && p in Run(ops[..j]).value.labels
    requires Run(ops[..j]).value.labels[p].id == Run(ops[..i + 1]).value.labels[o].id
    ensures j in Run(ops).value.bound && Run(ops).value.bound[j] == Size(ops[..i])
  {
    hide Inv, Step, Names, Proper;
    var before := ops[..j];
    assert before[..i] == ops[..i] && before[..i + 1] == ops[..i + 1] && before[i] == ops[i];
    assert before[i + 1..] == ops[i + 1..][..j - i - 1];
    LabelIsHere(before, i, o);
    RunPrefix(ops, j);
    RunKeeps(before);
    SizeIs(before);
    ReferBinds(Run(before).value, p);
    BoundStaysInRuns(ops, j + 1, j);
  }

  /** What assignL makes of its destination: a later reference to it leads to the source exactly if it had been
      referenced before, whatever the state. */
  lemma AssignLWorks(s: State, o: nat, src: nat)
    requires Inv(s) && Names(s, AssignL(o, src)) && Step(s, AssignL(o, src)).Some?
    ensures var t := Step(s, AssignL(o, src)).value;
      && s.labels[src].id in s.defs && Names(t, Refer(o)) && Step(t, Refer(o)).Some?
      && var u := Step(t, Refer(o)).value;
        (t.time in u.bound && u.bound[t.time] == s.defs[s.labels[src].id].offset) <==> s.labels[o].id != 0
  {
    hide CountsOk, Holders;
    NextIdIsNew(s);
  }

  function Play(s: State, ops: seq<Op>): Option<State>
    decreases |ops|
  {
    if ops == [] then Some(s)
    else if !Names(s, ops[0]) then None
    else
      var t :- Step(s, ops[0]);
      Play(t, ops[1..])
  }

  /** In full: L(a), assignL(b, a), jmp(b) leaves the jump undefined. */
  lemma AssignedBeforeUse()
    ensures Play(FRESH, [New(1), Define(1), New(2), AssignL(2, 1), Refer(2)]).Some?
    ensures Play(FRESH, [New(1), Define(1), New(2), AssignL(2, 1), Refer(2)]).value.pend == map[4 := 2]
  {
    var s1 := Step(FRESH, New(1)).value;
    var s2 := Step(s1, Define(1)).value;
    assert s2.defs == map[1 := Entry(0, 1)];
    var s3 := Step(s2, New(2)).value;
    var s4 := Step(s3, AssignL(2, 1)).value;
    assert s4.labels[2] == Obj(0, true) && s4.defs == map[1 := Entry(0, 1), 0 := Entry(0, 1)];
    var s5 := Step(s4, Refer(2)).value;
    assert s5.pend == map[4 := 2];
    PlayOne(FRESH, New(1), [Define(1), New(2), AssignL(2, 1), Refer(2)]);
    PlayOne(s1, Define(1), [New(2), AssignL(2, 1), Refer(2)]);
    PlayOne(s2, New(2), [AssignL(2, 1), Refer(2)]);
    PlayOne(s3, AssignL(2, 1), [Refer(2)]);
    PlayOne(s4, Refer(2), []);
  }

  lemma PlayOne(s: State, op: Op, rest: seq<Op>)
    requires Names(s, op) && Step(s, op).Some?
    ensures Play(s, [op] + rest) == Play(Step(s, op).value, rest)
  {
    assert ([op] + rest)[1..] == rest;
  }
}
