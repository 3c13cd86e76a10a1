/** xbyak/xbyak.h: LabelManager, method by method. Its string labels and its Label objects share nothing but the
    code position, and are two classes here. */
module LabelManagers {
  import opened Bytes
  import Life = LabelLife
  import Strings = LabelNames

  class StringLabels {
    var stateList: seq<Strings.Scope>
    var size: nat
    var time: nat
    var bound: map<nat, nat>

    ghost function View(): Strings.Names
      reads this
    {
      Strings.Names(stateList, size, time, bound)
    }

    /** reset. */
    constructor ()
      ensures View() == Strings.FRESH
    {
      stateList, size, time, bound := [Strings.Scope(map[], map[]), Strings.Scope(map[], map[])], 0, 0, map[];
    }

    /** define_inner: the loop leads one pending reference after the other to the label, until none is left. */
    method DefineInner(i: nat, name: string) returns (ok: bool)
      requires |stateList| >= 2 && i == Strings.ScopeOf(View(), name)
      modifies this`stateList, this`bound
      ensures var t := Strings.Define(old(View()), name); ok == t.Some? && (ok ==> View() == t.value) && (!ok ==> View() == old(View()))
    {
      var st := stateList[i];
      if name in st.defs { return false; }
      var undefs := st.undefs;
      ghost var now := Strings.Now(st.undefs, name, size);
      ghost var todo := now.Keys;
      while exists r :: r in undefs && undefs[r] == name
        invariant todo <= now.Keys && undefs == st.undefs - (now.Keys - todo)
        invariant bound == old(bound) + Strings.Now(st.undefs - todo, name, size)
        invariant stateList == old(stateList)
        decreases todo
      {
        var r :| r in undefs && undefs[r] == name;
        assert r in todo;
        bound := bound[r := size];
        undefs := undefs - {r};
        NowGrows(st.undefs, todo, r, name);
        todo := todo - {r};
      }
      assert forall r :: r in todo ==> r in undefs;
      assert todo == {};
      assert st.undefs - todo == st.undefs && now.Keys - todo == now.Keys;
      stateList := stateList[i := Strings.Scope(st.defs[name := size], undefs)];
      ok := true;
    }

    lemma NowGrows(undefs: map<nat, string>, todo: set<nat>, r: nat, name: string)
      requires r in todo && r in undefs && undefs[r] == name
      ensures Strings.Now(undefs - (todo - {r}), name, size) == Strings.Now(undefs - todo, name, size)[r := size]
    {}

    method DefineSlabel(label0: string) returns (ok: bool)
      requires |stateList| >= 2
      modifies this`stateList, this`bound
      ensures var t := Strings.DefineLabel(old(View()), label0); ok == t.Some? && (ok ==> View() == t.value)
    {
      var name := label0;
      if name == "@b" || name == "@f" { return false; }
      if name == "@@" {
        var front := stateList[0];
        if "@f" in front.defs {
          stateList := stateList[0 := front.(defs := front.defs - {"@f"})];
          name := "@b";
        } else {
          stateList := stateList[0 := front.(defs := front.defs - {"@b"})];
          name := "@f";
        }
        assert !Strings.Dotted(name);
      }
      var i := if Strings.Dotted(name) then |stateList| - 1 else 0;
      ok := DefineInner(i, name);
    }

    /** getOffset: None is an error; otherwise the offset if the label is defined, and the name to wait under. */
    method GetOffset(label0: string) returns (ok: bool, offset: Option<nat>, name: string)
      requires |stateList| >= 2
      ensures var key := Strings.Rename(View(), label0);
        && ok == key.Some? && (ok ==> name == key.value)
        && (ok ==> var t := stateList[Strings.ScopeOf(View(), name)];
             offset == if name in t.defs then Some(t.defs[name]) else None)
    {
      name, offset := label0, None;
      var defs := stateList[0].defs;
      if name == "@b" {
        if "@f" in defs { name := "@f"; }
        else if "@b" !in defs { return false, None, name; }
      } else if name == "@f" {
        if "@f" in defs { name := "@b"; }
      }
      var st := if Strings.Dotted(name) then stateList[|stateList| - 1] else stateList[0];
      if name in st.defs { offset := Some(st.defs[name]); }
      ok := true;
    }

    /** What a jump to a string label does with the manager. */
    method Reference(label0: string) returns (ok: bool)
      requires |stateList| >= 2
      modifies this`stateList, this`bound
      ensures var t := Strings.Refer(old(View()), label0); ok == t.Some? && (ok ==> View() == t.value)
    {
      var offset, name;
      ok, offset, name := GetOffset(label0);
      if !ok { return; }
      if offset.Some? {
        bound := bound[time := offset.value];
      } else {
        AddUndefinedLabel(name);
      }
    }

    method AddUndefinedLabel(name: string)
      requires |stateList| >= 2
      modifies this`stateList
      ensures var i := Strings.ScopeOf(old(View()), name); var t := old(stateList)[i];
        stateList == old(stateList)[i := t.(undefs := t.undefs[time := name])]
    {
      var i := if Strings.Dotted(name) then |stateList| - 1 else 0;
      stateList := stateList[i := stateList[i].(undefs := stateList[i].undefs[time := name])];
    }

    method EnterLocal()
      modifies this`stateList
      ensures stateList == old(stateList) + [Strings.Scope(map[], map[])]
    {
      stateList := stateList + [Strings.Scope(map[], map[])];
    }

    method LeaveLocal() returns (ok: bool)
      requires |stateList| >= 2
      modifies this`stateList
      ensures ok <==> |old(stateList)| > 2 && old(stateList)[|old(stateList)| - 1].undefs == map[]
      ensures stateList == if ok then old(stateList)[..|old(stateList)| - 1] else old(stateList)
    {
      if |stateList| <= 2 { return false; }
      if stateList[|stateList| - 1].undefs != map[] { return false; }
      stateList := stateList[..|stateList| - 1];
      ok := true;
    }

    /** One operation of the code generator. */
    method Do(op: Strings.Op) returns (ok: bool)
      requires |stateList| >= 2
      modifies this
      ensures var t := Strings.Step(old(View()), op); ok == t.Some? && (ok ==> View() == t.value)
    {
      ok := true;
      match op {
        case L(name) => ok := DefineSlabel(name);
        case Ref(name) => ok := Reference(name);
        case Enter => EnterLocal();
        case Leave => ok := LeaveLocal();
        case Code(n) => size := size + n;
      }
      if ok { time := time + 1; }
    }
  }

  class LabelObjects {
    var labels: map<nat, Life.Obj>
    var labelId: nat
    var defList: map<nat, Life.Entry>
    var ptrList: set<nat>
    var undefList: map<nat, nat>
    var bound: map<nat, nat>
    var size: nat
    var time: nat

    ghost function View(): Life.State
      reads this
    {
      Life.State(labels, labelId, defList, ptrList, undefList, bound, size, time)
    }

    constructor ()
      ensures View() == Life.FRESH
    {
      labels, labelId, defList, ptrList := map[], 1, map[], {};
      undefList, bound, size, time := map[], map[], 0, 0;
    }

    method GetId(o: nat) returns (id: nat)
      requires o in labels
      modifies this`labels, this`labelId
      ensures View() == Life.WithId(old(View()), o) && o in labels && id == labels[o].id
    {
      if labels[o].id == 0 {
        labels := labels[o := labels[o].(id := labelId)];
        labelId := labelId + 1;
      }
      id := labels[o].id;
    }

    method DefineInner(id: nat, offset: nat) returns (ok: bool)
      modifies this`defList, this`undefList, this`bound
      ensures var t := Life.Enter(old(View()), id, offset); ok == t.Some? && (ok ==> View() == t.value)
    {
      if id in defList { return false; }
      defList := defList[id := Life.Entry(offset, 1)];
      Settle(id, offset);
      ok := true;
    }

    /** The loop of define_inner: every pending reference to id is led to offset. */
    method Settle(id: nat, offset: nat)
      modifies this`undefList, this`bound
      ensures var now := Life.Waiting(old(undefList), id, offset);
        undefList == old(undefList) - now.Keys && bound == old(bound) + now
    {
      ghost var all := undefList;
      ghost var now := Life.Waiting(all, id, offset);
      ghost var todo := now.Keys;
      while exists r :: r in undefList && undefList[r] == id
        invariant todo <= now.Keys && undefList == all - (now.Keys - todo)
        invariant bound == old(bound) + Life.Waiting(all - todo, id, offset)
        decreases todo
      {
        var r :| r in undefList && undefList[r] == id;
        assert r in todo;
        bound := bound[r := offset];
        undefList := undefList - {r};
        assert Life.Waiting(all - (todo - {r}), id, offset) == Life.Waiting(all - todo, id, offset)[r := offset];
        todo := todo - {r};
      }
      assert forall r :: r in todo ==> r in undefList;
      assert todo == {};
      assert all - todo == all && now.Keys - todo == now.Keys;
    }

    method IncRefCount(id: nat, o: nat)
      modifies this`defList, this`ptrList
      ensures defList == Life.Counted(old(defList), id) && ptrList == old(ptrList) + {o}
    {
      if id !in defList { defList := defList[id := Life.Entry(0, 1)]; }
      defList := defList[id := Life.Entry(defList[id].offset, defList[id].refCount + 1)];
      ptrList := ptrList + {o};
    }

    method DecRefCount(id: nat, o: nat)
      modifies this`defList, this`ptrList
      ensures defList == Life.Uncounted(old(defList), id) && ptrList == old(ptrList) - {o}
    {
      ptrList := ptrList - {o};
      if id !in defList { return; }
      if defList[id].refCount == 1 {
        defList := defList - {id};
      } else if defList[id].refCount > 0 {
        defList := defList[id := Life.Entry(defList[id].offset, defList[id].refCount - 1)];
      }
    }

    /** The copy constructor, and operator= on an object without an id. */
    method CopyLabel(o: nat, src: nat)
      requires src in labels
      modifies this`labels, this`defList, this`ptrList
      ensures View() == Life.Share(old(View()), o, src)
    {
      var x := labels[src];
      labels := labels[o := x];
      if x.attached { IncRefCount(x.id, o); }
    }

    method DestroyLabel(o: nat)
      requires o in labels
      modifies this`labels, this`defList, this`ptrList
      ensures Some(View()) == Life.Do(old(View()), Life.Destroy(o))
    {
      var x := labels[o];
      if x.id != 0 && x.attached { DecRefCount(x.id, o); }
      labels := labels - {o};
    }

    method DefineClabel(o: nat) returns (ok: bool)
      requires o in labels
      modifies this
      ensures var t := Life.Do(old(View()), Life.Define(o)); ok == t.Some? && (ok ==> View() == t.value)
    {
      var id := GetId(o);
      ok := DefineInner(id, size);
      if !ok { return; }
      labels := labels[o := labels[o].(attached := true)];
      ptrList := ptrList + {o};
    }

    /** assign, called by assignL. */
    method AssignTo(o: nat, src: nat) returns (ok: bool)
      requires o in labels && src in labels
      modifies this
      ensures var t := Life.Do(old(View()), Life.AssignL(o, src)); ok == t.Some? && (ok ==> View() == t.value)
    {
      if labels[src].id !in defList { return false; }
      ok := DefineInner(labels[o].id, defList[labels[src].id].offset);
      if !ok { return; }
      labels := labels[o := labels[o].(attached := true)];
      ptrList := ptrList + {o};
    }

    method Reference(o: nat)
      requires o in labels
      modifies this
      ensures Some(View()) == Life.Do(old(View()), Life.Refer(o))
    {
      var id := GetId(o);
      if id in defList { bound := bound[time := defList[id].offset]; }
      else { undefList := undefList[time := id]; }
    }

    /** One operation; after a run of them the theorems about Life.Run apply to the fields. */
    method Do(op: Life.Op) returns (ok: bool)
      requires Life.Names(View(), op)
      modifies this
      ensures var t := Life.Step(old(View()), op); ok == t.Some? && (ok ==> View() == t.value)
    {
      ok := true;
      match op {
        case New(o) => labels := labels[o := Life.Obj(0, false)];
        case Copy(o, src) => CopyLabel(o, src);
        case Assign(o, src) => if labels[o].id != 0 { ok := false; } else { CopyLabel(o, src); }
        case Destroy(o) => DestroyLabel(o);
        case Define(o) => ok := DefineClabel(o);
        case AssignL(o, src) => ok := AssignTo(o, src);
        case Refer(o) => Reference(o);
        case Code(n) => size := size + n;
      }
      if ok { time := time + 1; }
    }
  }
}
