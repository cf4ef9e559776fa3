/**
 * The `Module` object of core/moduleobj.h and core/moduleobj.c: a name map
 * from a variable's name to its index, the variable slots the indices
 * select, the parent modules a lookup falls back to, and the loading of a
 * native module definition (functions, types and variables) into the
 * variable table.
 *
 * Names are symbols in the runtime; symbols are interned, so the name map
 * is keyed by the symbol's text. Other modules are named by an identity.
 */
module ModuleObj {
  import opened Wrappers
  import FuncObj
  import TypeObj
  import Values

  /**
   * What a variable slot holds. A function or type object the loader
   * creates is represented by what it was made from; anything else is a
   * value.
   */
  datatype Entry =
    | Val(v: Values.Value)
    | Function(meta: FuncObj.FuncMeta, code: nat)
    | TypeDef(def: TypeObj.NativeTypeDef)

  /** What fresh variable storage holds before anything is stored. */
  const Empty: Entry := Val(Values.Filler)

  /** The name map (a name to its variable index) and the variable slots. */
  datatype Table = Table(names: map<string, nat>, slots: seq<Entry>)

  /** The index of a known name (the term distinctness of indices is stated on). */
  function IndexOf(names: map<string, nat>, n: string): nat
    requires n in names
  {
    names[n]
  }

  /** Indices of different names differ. */
  ghost predicate Distinct(names: map<string, nat>) {
    forall n, m {:trigger IndexOf(names, n), IndexOf(names, m)} ::
      n in names && m in names && n != m ==> IndexOf(names, n) != IndexOf(names, m)
  }

  /** Indices are distinct, below the number of names, and every index has a slot. */
  ghost predicate ValidTable(t: Table) {
    |t.names| <= |t.slots| &&
    (forall n :: n in t.names ==> t.names[n] < |t.names|) &&
    Distinct(t.names)
  }

  /** The variables of a table, as a map from name to what its slot holds. */
  ghost function TableVars(t: Table): map<string, Entry>
    requires ValidTable(t)
  {
    map n | n in t.names :: t.slots[t.names[n]]
  }

  /**
   * `zis_array_slots_obj_new2` on the variables: `n` slots, the first
   * `min(n, |slots|)` kept and the rest empty.
   */
  function Reserved(slots: seq<Entry>, n: nat): (r: seq<Entry>)
    ensures |r| == n
    ensures forall k :: 0 <= k < n ==> r[k] == if k < |slots| then slots[k] else Empty
  {
    var kept := if n < |slots| then n else |slots|;
    slots[..kept] + seq(n - kept, _ => Empty)
  }

  /**
   * `zis_module_obj_set` on values: a known name keeps its index; a new name
   * takes the next index (the number of names so far), the storage growing
   * by 4 slots when it is full; the slot at the index then holds `e`.
   * The index is returned beside the new table.
   */
  function SetEntry(t: Table, name: string, e: Entry): (r: (Table, nat))
    requires ValidTable(t)
  {
    if name in t.names then
      var i := t.names[name];
      (Table(t.names, t.slots[i := e]), i)
    else
      var i := |t.names|;
      var grown := if |t.slots| == i then t.slots + [Empty, Empty, Empty, Empty] else t.slots;
      (Table(t.names[name := i], grown[i := e]), i)
  }

  /**
   * Setting a variable is a map update of the variables: the name then
   * holds `e` and every other name keeps its value. A known name keeps its
   * index and the storage; a new name gets index `|names|` and the storage
   * grows by 4 exactly when it was full.
   */
  lemma SetEntrySpec(t: Table, name: string, e: Entry)
    requires ValidTable(t)
    ensures var (r, i) := SetEntry(t, name, e);
            ValidTable(r) && TableVars(r) == TableVars(t)[name := e] &&
            i < |r.slots| && r.slots[i] == e && r.names[name] == i
    ensures var (r, i) := SetEntry(t, name, e);
            name in t.names ==> i == t.names[name] && r.names == t.names && |r.slots| == |t.slots|
    ensures var (r, i) := SetEntry(t, name, e);
            name !in t.names ==>
              i == |t.names| && r.names.Keys == t.names.Keys + {name} &&
              |r.slots| == if |t.slots| == |t.names| then |t.slots| + 4 else |t.slots|
  {
    if name in t.names {
      SetKnown(t, name, e);
    } else {
      SetNew(t, name, e);
    }
  }

  lemma SetKnown(t: Table, name: string, e: Entry)
    requires ValidTable(t) && name in t.names
    ensures var r := SetEntry(t, name, e).0;
            ValidTable(r) && TableVars(r) == TableVars(t)[name := e]
  {
    var r := SetEntry(t, name, e).0;
    var i := t.names[name];
    assert r.names == t.names && r.slots == t.slots[i := e];
    forall n | n in t.names && n != name
      ensures r.slots[r.names[n]] == t.slots[t.names[n]]
    {
      assert IndexOf(t.names, n) != IndexOf(t.names, name);
    }
    assert TableVars(r) == TableVars(t)[name := e];
  }

  lemma SetNew(t: Table, name: string, e: Entry)
    requires ValidTable(t) && name !in t.names
    ensures var r := SetEntry(t, name, e).0;
            ValidTable(r) && TableVars(r) == TableVars(t)[name := e]
  {
    var r := SetEntry(t, name, e).0;
    var i := |t.names|;
    GrownSlots(t.slots, i, e, r.slots);
    NewIndexValid(t.names, r.names, name, i);
    VarsAfterNew(t.names, r.names, t.slots, r.slots, name, e, i);
  }

  /** The slots after a new name's store: the old ones below the index, `e` at it. */
  lemma GrownSlots(slots: seq<Entry>, i: nat, e: Entry, r: seq<Entry>)
    requires i <= |slots|
    requires r == (if |slots| == i then slots + [Empty, Empty, Empty, Empty] else slots)[i := e]
    ensures i < |r| && r[i] == e && forall j :: 0 <= j < i ==> r[j] == slots[j]
  {
  }

  /** The variables after a new name's store are the old ones plus that name. */
  lemma VarsAfterNew(names: map<string, nat>, names': map<string, nat>, slots: seq<Entry>, slots': seq<Entry>,
                     name: string, e: Entry, i: nat)
    requires name !in names && names' == names[name := i]
    requires forall n :: n in names ==> names[n] < i
    requires i < |slots'| && i <= |slots| && slots'[i] == e
    requires forall j :: 0 <= j < i ==> slots'[j] == slots[j]
    ensures (map n | n in names' :: slots'[names'[n]]) == (map n | n in names :: slots[names[n]])[name := e]
  {
  }

  /** Giving a new name the next index keeps the indices distinct and below the count. */
  lemma NewIndexValid(names: map<string, nat>, names': map<string, nat>, name: string, i: nat)
    requires name !in names && i == |names| && names' == names[name := i]
    requires forall n :: n in names ==> names[n] < |names|
    requires Distinct(names)
    ensures forall n :: n in names' ==> names'[n] < |names'|
    ensures Distinct(names')
  {
    assert |names'| == i + 1;
    forall n, m | n in names' && m in names' && n != m
      ensures IndexOf(names', n) != IndexOf(names', m)
    {
      if n != name && m != name {
        assert IndexOf(names, n) != IndexOf(names, m);
      }
    }
  }

  /** Reserving room for at least every name keeps the table and its variables. */
  lemma ReservedSpec(t: Table, n: nat)
    requires ValidTable(t) && n >= |t.names|
    ensures ValidTable(Table(t.names, Reserved(t.slots, n)))
    ensures TableVars(Table(t.names, Reserved(t.slots, n))) == TableVars(t)
  {
    var r := Table(t.names, Reserved(t.slots, n));
    assert TableVars(r) == TableVars(t);
  }

  /** `struct zis_native_type_def__named_ref`: a type's name and definition. */
  datatype NamedTypeDef = NamedTypeDef(name: string, def: TypeObj.NativeTypeDef)

  /**
   * `struct zis_native_module_def`: terminated arrays of functions (the
   * first may be unnamed), types and variables; each may be `NULL`.
   */
  datatype NativeModuleDef = NativeModuleDef(
    functions: TypeObj.Terminated<TypeObj.NativeMethodDef>,
    types: TypeObj.Terminated<NamedTypeDef>,
    variables: TypeObj.Terminated<TypeObj.NativeStaticDef>)

  /**
   * The function entries from `from` up to `n` are present, named and carry
   * a meta in its C types (the loader asserts the names).
   */
  predicate NamedFunctions(fs: seq<Option<TypeObj.NativeMethodDef>>, from: nat, n: nat) {
    from <= n <= |fs| &&
    forall k :: from <= k < n ==>
      fs[k].Some? && fs[k].value.name.Some? && FuncObj.ValidNativeMeta(fs[k].value.meta)
  }

  /** The first `n` entries are present (they come before the terminator). */
  predicate Present<T>(s: seq<Option<T>>, n: nat) {
    n <= |s| && forall k :: 0 <= k < n ==> s[k].Some?
  }

  /** The three arrays are terminated and the functions after the first are named, with valid metas. */
  predicate ValidModuleDef(d: NativeModuleDef) {
    TypeObj.HasTerminator(d.functions) && TypeObj.HasTerminator(d.types) &&
    TypeObj.HasTerminator(d.variables) &&
    (d.functions.Some? ==>
       var fc := TypeObj.TerminatedLength(d.functions);
       fc > 0 ==> FuncObj.ValidNativeMeta(d.functions.value[0].value.meta) &&
                  NamedFunctions(d.functions.value, 1, fc))
  }

  /** The index the function loop starts at: 1 when the first entry is the unnamed initializer. */
  function FirstNamed(fs: seq<Option<TypeObj.NativeMethodDef>>): nat {
    if |fs| > 0 && fs[0].Some? && fs[0].value.name.None? then 1 else 0
  }

  /*
   * What loading means for the variables, as maps from name to value: each
   * entry of each loop rebinds its name, in order.
   */

  /** The variables after one function entry: rebound to the function when its meta converts. */
  function FunctionUpdated(m: map<string, Entry>, f: TypeObj.NativeMethodDef): map<string, Entry>
    requires f.name.Some? && FuncObj.ValidNativeMeta(f.meta)
  {
    var c := FuncObj.MetaConv(f.meta);
    if c.Some? then m[f.name.value := Function(c.value, f.code)] else m
  }

  function FunctionsUpdated(m: map<string, Entry>, fs: seq<Option<TypeObj.NativeMethodDef>>, from: nat, n: nat): map<string, Entry>
    requires NamedFunctions(fs, from, n)
    decreases n
  {
    if n == from then m else FunctionUpdated(FunctionsUpdated(m, fs, from, n - 1), fs[n - 1].value)
  }

  function TypeUpdated(m: map<string, Entry>, n: NamedTypeDef): map<string, Entry> {
    m[n.name := TypeDef(n.def)]
  }

  function TypesUpdated(m: map<string, Entry>, ts: seq<Option<NamedTypeDef>>, n: nat): map<string, Entry>
    requires Present(ts, n)
  {
    if n == 0 then m else TypeUpdated(TypesUpdated(m, ts, n - 1), ts[n - 1].value)
  }

  /** The variables after one variable entry: rebound when its value can be made. */
  function VariableUpdated(m: map<string, Entry>, v: TypeObj.NativeStaticDef): map<string, Entry> {
    if v.value.Some? then m[v.name := Val(v.value.value)] else m
  }

  function VariablesUpdated(m: map<string, Entry>, vs: seq<Option<TypeObj.NativeStaticDef>>, n: nat): map<string, Entry>
    requires Present(vs, n)
  {
    if n == 0 then m else VariableUpdated(VariablesUpdated(m, vs, n - 1), vs[n - 1].value)
  }

  /** The variables after the three loops: functions, then types, then variables. */
  function Updated(m: map<string, Entry>, d: NativeModuleDef): map<string, Entry>
    requires ValidModuleDef(d)
  {
    var fc := TypeObj.TerminatedLength(d.functions);
    var tc := TypeObj.TerminatedLength(d.types);
    var vc := TypeObj.TerminatedLength(d.variables);
    var m1 := if fc == 0 then m else FunctionsUpdated(m, d.functions.value, FirstNamed(d.functions.value), fc);
    var m2 := if tc == 0 then m1 else TypesUpdated(m1, d.types.value, tc);
    if vc == 0 then m2 else VariablesUpdated(m2, d.variables.value, vc)
  }

  /**
   * After the variable loop over the first `n` entries, a name is bound
   * exactly when it was before or some entry with a value names it.
   */
  lemma {:induction false} VariablesUpdatedKeys(m: map<string, Entry>, vs: seq<Option<TypeObj.NativeStaticDef>>, n: nat, name: string)
    requires Present(vs, n)
    ensures name in VariablesUpdated(m, vs, n) <==>
            name in m || exists k :: 0 <= k < n && vs[k].value.value.Some? && vs[k].value.name == name
  {
    if n > 0 {
      VariablesUpdatedKeys(m, vs, n - 1, name);
      var v := vs[n - 1].value;
      if v.value.Some? && v.name == name {
        assert vs[n - 1].value.value.Some? && vs[n - 1].value.name == name;
      }
    }
  }

  /**
   * An entry with a value that no later entry renames is what its name
   * holds after the variable loop.
   */
  lemma {:induction false} VariablesUpdatedLast(m: map<string, Entry>, vs: seq<Option<TypeObj.NativeStaticDef>>, n: nat, k: nat)
    requires Present(vs, n) && k < n && vs[k].value.value.Some?
    requires forall j :: k < j < n ==> vs[j].value.name != vs[k].value.name
    ensures vs[k].value.name in VariablesUpdated(m, vs, n)
    ensures VariablesUpdated(m, vs, n)[vs[k].value.name] == Val(vs[k].value.value.value)
  {
    if k < n - 1 {
      VariablesUpdatedLast(m, vs, n - 1, k);
    }
  }

  /** A name no entry of the loop mentions keeps what it had. */
  lemma {:induction false} VariablesUpdatedOthers(m: map<string, Entry>, vs: seq<Option<TypeObj.NativeStaticDef>>, n: nat, name: string)
    requires Present(vs, n) && forall k :: 0 <= k < n ==> vs[k].value.name != name
    ensures name in VariablesUpdated(m, vs, n) <==> name in m
    ensures name in m ==> VariablesUpdated(m, vs, n)[name] == m[name]
  {
    if n > 0 {
      VariablesUpdatedOthers(m, vs, n - 1, name);
    }
  }

  /** The slots the loader reserves: the old names plus one per entry of each array. */
  function ReserveCount(names: nat, d: NativeModuleDef): nat
    requires ValidModuleDef(d)
  {
    names + TypeObj.TerminatedLength(d.functions) + TypeObj.TerminatedLength(d.types) +
    TypeObj.TerminatedLength(d.variables)
  }

  /*
   * The same loops on the table, each pass one `zis_module_obj_set`.
   */

  function FunctionBound(t: Table, f: TypeObj.NativeMethodDef): (r: Table)
    requires ValidTable(t) && f.name.Some? && FuncObj.ValidNativeMeta(f.meta)
    ensures ValidTable(r)
  {
    var c := FuncObj.MetaConv(f.meta);
    if c.Some? then
      SetEntrySpec(t, f.name.value, Function(c.value, f.code));
      SetEntry(t, f.name.value, Function(c.value, f.code)).0
    else t
  }

  function FunctionsLoaded(t: Table, fs: seq<Option<TypeObj.NativeMethodDef>>, from: nat, n: nat): (r: Table)
    requires ValidTable(t) && NamedFunctions(fs, from, n)
    ensures ValidTable(r)
    decreases n
  {
    if n == from then t else FunctionBound(FunctionsLoaded(t, fs, from, n - 1), fs[n - 1].value)
  }

  function TypeBound(t: Table, n: NamedTypeDef): (r: Table)
    requires ValidTable(t)
    ensures ValidTable(r)
  {
    SetEntrySpec(t, n.name, TypeDef(n.def));
    SetEntry(t, n.name, TypeDef(n.def)).0
  }

  function TypesLoaded(t: Table, ts: seq<Option<NamedTypeDef>>, n: nat): (r: Table)
    requires ValidTable(t) && Present(ts, n)
    ensures ValidTable(r)
  {
    if n == 0 then t else TypeBound(TypesLoaded(t, ts, n - 1), ts[n - 1].value)
  }

  function VariableBound(t: Table, v: TypeObj.NativeStaticDef): (r: Table)
    requires ValidTable(t)
    ensures ValidTable(r)
  {
    if v.value.Some? then
      SetEntrySpec(t, v.name, Val(v.value.value));
      SetEntry(t, v.name, Val(v.value.value)).0
    else t
  }

  function VariablesLoaded(t: Table, vs: seq<Option<TypeObj.NativeStaticDef>>, n: nat): (r: Table)
    requires ValidTable(t) && Present(vs, n)
    ensures ValidTable(r)
  {
    if n == 0 then t else VariableBound(VariablesLoaded(t, vs, n - 1), vs[n - 1].value)
  }

  /** The table after the three loops of the loader. */
  function Loaded(t: Table, d: NativeModuleDef): (r: Table)
    requires ValidTable(t) && ValidModuleDef(d)
    ensures ValidTable(r)
  {
    var fc := TypeObj.TerminatedLength(d.functions);
    var tc := TypeObj.TerminatedLength(d.types);
    var vc := TypeObj.TerminatedLength(d.variables);
    var t1 := if fc == 0 then t else FunctionsLoaded(t, d.functions.value, FirstNamed(d.functions.value), fc);
    var t2 := if tc == 0 then t1 else TypesLoaded(t1, d.types.value, tc);
    if vc == 0 then t2 else VariablesLoaded(t2, d.variables.value, vc)
  }

  lemma FunctionStep(t: Table, f: TypeObj.NativeMethodDef)
    requires ValidTable(t) && f.name.Some? && FuncObj.ValidNativeMeta(f.meta)
    ensures TableVars(FunctionBound(t, f)) == FunctionUpdated(TableVars(t), f)
  {
    var c := FuncObj.MetaConv(f.meta);
    if c.Some? {
      SetEntrySpec(t, f.name.value, Function(c.value, f.code));
    }
  }

  lemma TypeStep(t: Table, n: NamedTypeDef)
    requires ValidTable(t)
    ensures TableVars(TypeBound(t, n)) == TypeUpdated(TableVars(t), n)
  {
    SetEntrySpec(t, n.name, TypeDef(n.def));
  }

  lemma VariableStep(t: Table, v: TypeObj.NativeStaticDef)
    requires ValidTable(t)
    ensures TableVars(VariableBound(t, v)) == VariableUpdated(TableVars(t), v)
  {
    if v.value.Some? {
      SetEntrySpec(t, v.name, Val(v.value.value));
    }
  }

  /** The function loop on the table binds what `FunctionsUpdated` binds. */
  lemma {:induction false} FunctionsLoadedVars(t: Table, fs: seq<Option<TypeObj.NativeMethodDef>>, from: nat, n: nat)
    requires ValidTable(t) && NamedFunctions(fs, from, n)
    ensures TableVars(FunctionsLoaded(t, fs, from, n)) == FunctionsUpdated(TableVars(t), fs, from, n)
    decreases n
  {
    if n > from {
      var p := FunctionsLoaded(t, fs, from, n - 1);
      var f := fs[n - 1].value;
      assert FunctionsLoaded(t, fs, from, n) == FunctionBound(p, f);
      assert FunctionsUpdated(TableVars(t), fs, from, n) == FunctionUpdated(FunctionsUpdated(TableVars(t), fs, from, n - 1), f);
      FunctionsLoadedVars(t, fs, from, n - 1);
      FunctionStep(p, f);
    }
  }


  /** The type loop on the table binds what `TypesUpdated` binds. */
  lemma {:induction false} TypesLoadedVars(t: Table, ts: seq<Option<NamedTypeDef>>, n: nat)
    requires ValidTable(t) && Present(ts, n)
    ensures TableVars(TypesLoaded(t, ts, n)) == TypesUpdated(TableVars(t), ts, n)
  {
    if n > 0 {
      var p := TypesLoaded(t, ts, n - 1);
      var x := ts[n - 1].value;
      assert TypesLoaded(t, ts, n) == TypeBound(p, x);
      assert TypesUpdated(TableVars(t), ts, n) == TypeUpdated(TypesUpdated(TableVars(t), ts, n - 1), x);
      TypesLoadedVars(t, ts, n - 1);
      TypeStep(p, x);
    }
  }

  /** The variable loop on the table binds what `VariablesUpdated` binds. */
  lemma {:induction false} VariablesLoadedVars(t: Table, vs: seq<Option<TypeObj.NativeStaticDef>>, n: nat)
    requires ValidTable(t) && Present(vs, n)
    ensures TableVars(VariablesLoaded(t, vs, n)) == VariablesUpdated(TableVars(t), vs, n)
  {
    if n > 0 {
      var p := VariablesLoaded(t, vs, n - 1);
      var x := vs[n - 1].value;
      assert VariablesLoaded(t, vs, n) == VariableBound(p, x);
      assert VariablesUpdated(TableVars(t), vs, n) == VariableUpdated(VariablesUpdated(TableVars(t), vs, n - 1), x);
      VariablesLoadedVars(t, vs, n - 1);
      VariableStep(p, x);
    }
  }

  /** Loading the table binds what `Updated` describes. */
  lemma LoadedVars(t: Table, d: NativeModuleDef)
    requires ValidTable(t) && ValidModuleDef(d)
    ensures TableVars(Loaded(t, d)) == Updated(TableVars(t), d)
  {
    var fc := TypeObj.TerminatedLength(d.functions);
    var tc := TypeObj.TerminatedLength(d.types);
    var vc := TypeObj.TerminatedLength(d.variables);
    var t1 := if fc == 0 then t else FunctionsLoaded(t, d.functions.value, FirstNamed(d.functions.value), fc);
    var t2 := if tc == 0 then t1 else TypesLoaded(t1, d.types.value, tc);
    if fc > 0 {
      FunctionsLoadedVars(t, d.functions.value, FirstNamed(d.functions.value), fc);
    }
    if tc > 0 {
      TypesLoadedVars(t1, d.types.value, tc);
    }
    if vc > 0 {
      VariablesLoadedVars(t2, d.variables.value, vc);
    }
  }

  /**
   * The initializer: when the first function entry has no name it becomes a
   * function taking no arguments with `nl + 1` registers (in the
   * `unsigned short` field); otherwise there is none.
   */
  function Initializer(d: NativeModuleDef): (r: Option<Entry>)
    requires ValidModuleDef(d)
    ensures r.Some? <==> TypeObj.TerminatedLength(d.functions) > 0 && d.functions.value[0].value.name.None?
    ensures r.Some? ==> var f := d.functions.value[0].value;
                        r.value == Function(FuncObj.FuncMeta(0, 0, (f.meta.nl + 1) % 0x1_0000), f.code) &&
                        (f.meta.nl < 0xffff ==> r.value.meta.nr == f.meta.nl + 1)
  {
    if TypeObj.TerminatedLength(d.functions) > 0 && d.functions.value[0].value.name.None? then
      var f := d.functions.value[0].value;
      Some(Function(FuncObj.FuncMeta(0, 0, (f.meta.nl + 1) % 0x1_0000), f.code))
    else None
  }

  /**
   * Every variable entry whose value can be made is bound after loading,
   * and holds that value when no later variable entry has its name.
   */
  lemma LoadDefinesVariables(m: map<string, Entry>, d: NativeModuleDef, k: nat)
    requires ValidModuleDef(d)
    requires k < TypeObj.TerminatedLength(d.variables) && d.variables.value[k].value.value.Some?
    ensures var vs := d.variables.value;
            var vc := TypeObj.TerminatedLength(d.variables);
            vs[k].value.name in Updated(m, d) &&
            ((forall j :: k < j < vc ==> vs[j].value.name != vs[k].value.name) ==>
               Updated(m, d)[vs[k].value.name] == Val(vs[k].value.value.value))
  {
    var vs := d.variables.value;
    var vc := TypeObj.TerminatedLength(d.variables);
    var fc := TypeObj.TerminatedLength(d.functions);
    var tc := TypeObj.TerminatedLength(d.types);
    var m1 := if fc == 0 then m else FunctionsUpdated(m, d.functions.value, FirstNamed(d.functions.value), fc);
    var m2 := if tc == 0 then m1 else TypesUpdated(m1, d.types.value, tc);
    assert Updated(m, d) == VariablesUpdated(m2, vs, vc);
    VariablesUpdatedKeys(m2, vs, vc, vs[k].value.name);
    if forall j :: k < j < vc ==> vs[j].value.name != vs[k].value.name {
      VariablesUpdatedLast(m2, vs, vc, k);
    }
  }

  /**
   * The variable loop as written (core/moduleobj.c:149-158) runs over the
   * type count: it binds from the first `tc` variable entries, and when
   * there are more types than variables it reads the terminator and past
   * it (here `None`).
   */
  function VariablesUpdatedAsWritten(m: map<string, Entry>, d: NativeModuleDef): (r: Option<map<string, Entry>>)
    requires ValidModuleDef(d)
    ensures var tc := TypeObj.TerminatedLength(d.types);
            var vc := TypeObj.TerminatedLength(d.variables);
            r.None? <==> vc > 0 && tc > vc
  {
    var tc := TypeObj.TerminatedLength(d.types);
    var vc := TypeObj.TerminatedLength(d.variables);
    if vc == 0 then Some(m)
    else if tc > vc then None
    else Some(VariablesUpdated(m, d.variables.value, tc))
  }

  /**
   * A module defining one variable and no type: the loop as written binds
   * no variable, while loading binds it.
   */
  lemma VariableLoopSkipsVariables()
    ensures var d := NativeModuleDef(None, None,
                                     Some([Some(TypeObj.NativeStaticDef("x", Some(Values.Small(1)))), None]));
            ValidModuleDef(d) &&
            VariablesUpdatedAsWritten(map[], d) == Some(map[]) &&
            Updated(map[], d) == map["x" := Val(Values.Small(1))]
  {
    var d := NativeModuleDef(None, None,
                             Some([Some(TypeObj.NativeStaticDef("x", Some(Values.Small(1)))), None]));
    assert d.variables.value[1].None?;
    assert TypeObj.FirstNone(d.variables.value, 1) == 1;
    assert TypeObj.FirstNone(d.variables.value, 0) == 1;
    assert TypeObj.TerminatedLength(d.variables) == 1;
    assert VariablesUpdated(map[], d.variables.value, 1) == map["x" := Val(Values.Small(1))];
  }

  /** `_parent`: none (smallint 0), one module, or an array of modules. */
  datatype Parent = NoParent | Single(m: nat) | Many(ms: seq<nat>)

  /** The parents in the order `foreach_parent` visits them. */
  function ParentList(p: Parent): seq<nat> {
    match p
    case NoParent => []
    case Single(m) => [m]
    case Many(ms) => ms
  }

  /**
   * What a lookup through the parents `ps` finds, given each module's
   * variables as `vars`: the value in the first parent that binds `name`.
   */
  function FirstBinding(ps: seq<nat>, vars: nat -> map<string, Entry>, name: string): Option<Entry> {
    if ps == [] then None
    else if name in vars(ps[0]) then Some(vars(ps[0])[name])
    else FirstBinding(ps[1..], vars, name)
  }

  /** When the `k`th parent is the first to bind `name`, the lookup finds its value there. */
  lemma {:induction false} FirstBindingFound(ps: seq<nat>, vars: nat -> map<string, Entry>, name: string, k: nat)
    requires k < |ps| && name in vars(ps[k])
    requires forall j :: 0 <= j < k ==> name !in vars(ps[j])
    ensures FirstBinding(ps, vars, name) == Some(vars(ps[k])[name])
  {
    if k > 0 {
      assert name !in vars(ps[0]);
      FirstBindingFound(ps[1..], vars, name, k - 1);
    }
  }

  /** When no parent binds `name`, the lookup finds nothing. */
  lemma {:induction false} FirstBindingNone(ps: seq<nat>, vars: nat -> map<string, Entry>, name: string)
    requires forall k :: 0 <= k < |ps| ==> name !in vars(ps[k])
    ensures FirstBinding(ps, vars, name) == None
  {
    if ps != [] {
      assert name !in vars(ps[0]);
      FirstBindingNone(ps[1..], vars, name);
    }
  }

  class Module {
    var nameMap: map<string, nat>
    var variables: seq<Entry>
    var parent: Parent

    ghost predicate Valid()
      reads this
    {
      ValidTable(Table(nameMap, variables))
    }

    /** The module's variables by name. */
    ghost function Contents(): map<string, Entry>
      reads this
      requires Valid()
    {
      TableVars(Table(nameMap, variables))
    }

    /** `zis_module_obj_new`: no variables, and the prelude as parent when one is given. */
    constructor (prelude: Option<nat>)
      ensures nameMap == map[] && variables == []
      ensures parent == if prelude.Some? then Single(prelude.value) else NoParent
      ensures Valid() && Contents() == map[]
    {
      nameMap := map[];
      variables := [];
      parent := if prelude.Some? then Single(prelude.value) else NoParent;
    }

    /** `zis_module_obj_find`: the variable's index, or -1 for an unknown name. */
    method Find(name: string) returns (index: int)
      requires Valid()
      ensures index == -1 <==> name !in Contents()
      ensures index != -1 ==> 0 <= index < |variables| && variables[index] == Contents()[name]
    {
      if name in nameMap {
        index := nameMap[name];
      } else {
        index := -1;
      }
    }

    /** `zis_module_obj_get`: what the variable holds, or `NULL` (here `None`) for an unknown name. */
    method Get(name: string) returns (r: Option<Entry>)
      requires Valid()
      ensures r.None? <==> name !in Contents()
      ensures r.Some? ==> r.value == Contents()[name]
    {
      if name !in nameMap {
        return None;
      }
      r := Some(variables[nameMap[name]]);
    }

    /**
     * `zis_module_obj_set`: binds `name` to `e` and returns its index, as
     * `SetEntry` describes (`SetEntrySpec`: the variables are then the old
     * ones with `name` rebound).
     */
    method Set(name: string, e: Entry) returns (index: nat)
      requires Valid()
      modifies this
      ensures (Table(nameMap, variables), index) == SetEntry(old(Table(nameMap, variables)), name, e)
      ensures Valid()
      ensures parent == old(parent)
    {
      SetEntrySpec(Table(nameMap, variables), name, e);
      if name in nameMap {
        index := nameMap[name];
      } else {
        index := |nameMap|;
        nameMap := nameMap[name := index];
        if |variables| == index {
          variables := variables + [Empty, Empty, Empty, Empty];
        }
      }
      variables := variables[index := e];
    }

    /**
     * `zis_module_obj_add_parent`: the first parent is stored alone, a second
     * turns it into a two-element array, later ones are appended; in every
     * case the new parent is visited last.
     */
    method AddParent(m: nat)
      modifies this
      ensures old(parent).NoParent? ==> parent == Single(m)
      ensures old(parent).Single? ==> parent == Many([old(parent).m, m])
      ensures old(parent).Many? ==> parent == Many(old(parent).ms + [m])
      ensures ParentList(parent) == ParentList(old(parent)) + [m]
      ensures nameMap == old(nameMap) && variables == old(variables)
    {
      match parent
      case NoParent =>
        parent := Single(m);
      case Single(q) =>
        parent := Many([q, m]);
      case Many(ms) =>
        parent := Many(ms + [m]);
    }

    /**
     * `zis_module_obj_foreach_parent` with the visitor's result for each
     * module given as `visit`: the parents are visited in order until one
     * gives a non-zero status, which is returned (0 when all give 0 or
     * there is no parent). `visited` lists the modules visited.
     */
    method ForeachParent(visit: nat -> int) returns (status: int, visited: seq<nat>)
      ensures visited <= ParentList(parent)
      ensures forall k :: 0 <= k < |visited| - 1 ==> visit(visited[k]) == 0
      ensures visited != [] ==> visit(visited[|visited| - 1]) == status
      ensures visited == [] ==> status == 0
      ensures status == 0 ==> visited == ParentList(parent)
    {
      match parent
      case NoParent =>
        return 0, [];
      case Single(q) =>
        status := visit(q);
        visited := [q];
      case Many(ms) =>
        status := 0;
        visited := [];
        var i := 0;
        while i < |ms|
          invariant i <= |ms| && visited == ms[..i] && status == 0
          invariant forall k :: 0 <= k < i ==> visit(ms[k]) == 0
        {
          status := visit(ms[i]);
          visited := visited + [ms[i]];
          if status != 0 {
            assert visited == ms[..i + 1];
            return;
          }
          i := i + 1;
        }
        assert visited == ms;
    }

    /**
     * `zis_module_obj_parent_get`, with each module's variables given as
     * `vars`: the parents are visited with a visitor that stops at the first
     * one binding `name`, and what that one holds is returned.
     */
    method ParentGet(vars: nat -> map<string, Entry>, name: string) returns (r: Option<Entry>)
      ensures r == FirstBinding(ParentList(parent), vars, name)
    {
      var status, visited := ForeachParent((m: nat) => if name in vars(m) then 1 else 0);
      if status != 0 {
        assert visited != [];
        var last := visited[|visited| - 1];
        r := Some(vars(last)[name]);
        FirstBindingFound(ParentList(parent), vars, name, |visited| - 1);
      } else {
        r := None;
        FirstBindingNone(ParentList(parent), vars, name);
      }
    }

    /** One pass of the function loop: binds the entry when its meta converts. */
    method BindFunction(f: TypeObj.NativeMethodDef)
      requires f.name.Some? && FuncObj.ValidNativeMeta(f.meta) && Valid()
      modifies this
      ensures Table(nameMap, variables) == FunctionBound(old(Table(nameMap, variables)), f)
      ensures parent == old(parent)
    {
      var c := FuncObj.MetaConv(f.meta);
      if c.Some? {
        var index := Set(f.name.value, Function(c.value, f.code));
      }
    }

    /** The function loop: binds each named entry from `from` whose meta converts. */
    method LoadFunctions(fs: seq<Option<TypeObj.NativeMethodDef>>, from: nat, fc: nat)
      requires NamedFunctions(fs, from, fc) && Valid()
      modifies this
      ensures Table(nameMap, variables) == FunctionsLoaded(old(Table(nameMap, variables)), fs, from, fc)
      ensures parent == old(parent)
    {
      var i := from;
      ghost var start := Table(nameMap, variables);
      while i < fc
        invariant from <= i <= fc
        invariant Table(nameMap, variables) == FunctionsLoaded(start, fs, from, i) && parent == old(parent)
      {
        BindFunction(fs[i].value);
        i := i + 1;
      }
    }

    /** One pass of the type loop: binds the type under its name. */
    method BindType(n: NamedTypeDef)
      requires Valid()
      modifies this
      ensures Table(nameMap, variables) == TypeBound(old(Table(nameMap, variables)), n)
      ensures parent == old(parent)
    {
      var index := Set(n.name, TypeDef(n.def));
    }

    /** The type loop: binds every type entry. */
    method LoadTypes(ts: seq<Option<NamedTypeDef>>, tc: nat)
      requires Present(ts, tc) && Valid()
      modifies this
      ensures Table(nameMap, variables) == TypesLoaded(old(Table(nameMap, variables)), ts, tc)
      ensures parent == old(parent)
    {
      var i := 0;
      ghost var start := Table(nameMap, variables);
      while i < tc
        invariant i <= tc
        invariant Table(nameMap, variables) == TypesLoaded(start, ts, i) && parent == old(parent)
      {
        BindType(ts[i].value);
        i := i + 1;
      }
    }

    /** One pass of the variable loop: binds the entry when its value can be made. */
    method BindVariable(v: TypeObj.NativeStaticDef)
      requires Valid()
      modifies this
      ensures Table(nameMap, variables) == VariableBound(old(Table(nameMap, variables)), v)
      ensures parent == old(parent)
    {
      if v.value.Some? {
        var index := Set(v.name, Val(v.value.value));
      }
    }

    /** The variable loop, over the variable count: binds every entry whose value can be made. */
    method LoadVariables(vs: seq<Option<TypeObj.NativeStaticDef>>, vc: nat)
      requires Present(vs, vc) && Valid()
      modifies this
      ensures Table(nameMap, variables) == VariablesLoaded(old(Table(nameMap, variables)), vs, vc)
      ensures parent == old(parent)
    {
      var i := 0;
      ghost var start := Table(nameMap, variables);
      while i < vc
        invariant i <= vc
        invariant Table(nameMap, variables) == VariablesLoaded(start, vs, i) && parent == old(parent)
      {
        BindVariable(vs[i].value);
        i := i + 1;
      }
    }

    /** The three loops of the loader: functions, then types, then variables. */
    method LoadDefinitions(d: NativeModuleDef)
      requires Valid() && ValidModuleDef(d)
      modifies this
      ensures Table(nameMap, variables) == Loaded(old(Table(nameMap, variables)), d)
      ensures parent == old(parent)
    {
      var fc := TypeObj.ArrLen(d.functions);
      var tc := TypeObj.ArrLen(d.types);
      var vc := TypeObj.ArrLen(d.variables);
      if fc > 0 {
        LoadFunctions(d.functions.value, FirstNamed(d.functions.value), fc);
      }
      if tc > 0 {
        LoadTypes(d.types.value, tc);
      }
      if vc > 0 {
        LoadVariables(d.variables.value, vc);
      }
    }

    /**
     * `zis_module_obj_load_native_def`: reserves a slot per name and entry,
     * binds the named functions whose meta converts, every type and every
     * variable whose value can be made, in that order, and returns the
     * initializer; the variables are then `Updated` from the old ones. The
     * variable loop runs over the variable count here (see
     * `VariablesUpdatedAsWritten` for the loop as written).
     */
    method LoadNativeDef(d: NativeModuleDef) returns (init: Option<Entry>)
      requires Valid() && ValidModuleDef(d)
      modifies this
      ensures Table(nameMap, variables) ==
              Loaded(Table(old(nameMap), Reserved(old(variables), ReserveCount(|old(nameMap)|, d))), d)
      ensures Valid() && Contents() == Updated(old(Contents()), d)
      ensures parent == old(parent)
      ensures init == Initializer(d)
    {
      var fc := TypeObj.ArrLen(d.functions);
      var tc := TypeObj.ArrLen(d.types);
      var vc := TypeObj.ArrLen(d.variables);
      init := None;
      if fc > 0 && d.functions.value[0].value.name.None? {
        var first := d.functions.value[0].value;
        init := Some(Function(FuncObj.FuncMeta(0, 0, (first.meta.nl + 1) % 0x1_0000), first.code));
      }
      assert init == Initializer(d);

      var count := |nameMap| + fc + tc + vc;
      assert count == ReserveCount(|old(nameMap)|, d);
      ReservedSpec(Table(nameMap, variables), count);
      variables := Reserved(variables, count);
      ghost var start := Table(nameMap, variables);
      assert start == Table(old(nameMap), Reserved(old(variables), ReserveCount(|old(nameMap)|, d)));
      LoadDefinitions(d);
      LoadedVars(start, d);
    }
  }
}
