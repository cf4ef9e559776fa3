/**
 * The `Type` object of core/typeobj.h and core/typeobj.c: the layout
 * numbers every object of the type shares (slot count, size of the BYTES
 * part, the cached object size), the name map from a field or method name
 * to its index, the method table and the static members, and the loading
 * of a native type definition into them.
 *
 * Names are symbols in the runtime; symbols are interned, so a name map
 * keyed by symbol is a map keyed by the symbol's text.
 */
module TypeObj {
  import opened Wrappers
  import opened Words
  import Values
  import FuncObj

  /** A `size_t` count whose value `(size_t)-1` marks the part as extendable. */
  datatype Count = Fixed(n: nat) | Extendable

  /** `ZIS_OBJECT_HEAD_SIZE`: the two meta words. */
  function HeadSize(w: Width): nat {
    2 * FuncObj.PtrBytes(w)
  }

  /**
   * The `_obj_size` a native definition gives (core/typeobj.c:35-36 and
   * 104-105): 0 when either part is extendable, otherwise the head, the
   * slots and the bytes.
   */
  function CachedSize(w: Width, slots: Count, bytes: Count): (s: nat)
    ensures s == 0 <==> slots.Extendable? || bytes.Extendable?
  {
    if slots.Extendable? || bytes.Extendable? then 0
    else HeadSize(w) + slots.n * FuncObj.PtrBytes(w) + bytes.n
  }

  /**
   * What the size functions read from an object: its slots, and the
   * `size_t` word at the start of its BYTES part (meaningful only for a type
   * with extendable BYTES).
   */
  datatype Obj = Obj(slots: seq<Values.Value>, bytesSizeWord: nat)

  /** A method table entry: nothing yet (the filler of a new table), or a native function. */
  datatype MethodSlot = NoMethod | NativeFunc(meta: FuncObj.FuncMeta, code: nat)

  /** The name-map value of field i. */
  function FieldCode(i: nat): int {
    i
  }

  /** The name-map value of method i: `-1 - i`, so methods take the negative values. */
  function MethodCode(i: nat): (c: int)
    ensures c < 0
  {
    -1 - i
  }

  /** The field index a name-map value stands for: the value itself when it is not negative. */
  function FieldOfCode(c: int): (r: Option<nat>)
    ensures r.Some? <==> c >= 0
    ensures forall i: nat :: c == FieldCode(i) ==> r == Some(i)
  {
    if c < 0 then None else Some(c)
  }

  /** The method index a name-map value stands for: `-1 - c` when it is negative. */
  function MethodOfCode(c: int): (r: Option<nat>)
    ensures r.Some? <==> c < 0
    ensures forall i: nat :: c == MethodCode(i) ==> r == Some(i)
  {
    if c >= 0 then None else Some(-1 - c)
  }

  /** Every value names a field or a method, never both. */
  lemma CodesPartition(c: int)
    ensures FieldOfCode(c).Some? != MethodOfCode(c).Some?
    ensures FieldOfCode(c).Some? ==> FieldCode(FieldOfCode(c).value) == c
    ensures MethodOfCode(c).Some? ==> MethodCode(MethodOfCode(c).value) == c
  {
  }

  /** `zis_type_obj_find_field` on a name map: -1 (here `None`) for an absent name and for a method. */
  function FindField(nameMap: map<string, int>, name: string): (r: Option<nat>)
    ensures r.Some? <==> name in nameMap && nameMap[name] >= 0
    ensures r.Some? ==> nameMap[name] == FieldCode(r.value)
  {
    if name !in nameMap then None else FieldOfCode(nameMap[name])
  }

  /** `zis_type_obj_find_method` on a name map: -1 (here `None`) for an absent name and for a field. */
  function FindMethod(nameMap: map<string, int>, name: string): (r: Option<nat>)
    ensures r.Some? <==> name in nameMap && nameMap[name] < 0
    ensures r.Some? ==> nameMap[name] == MethodCode(r.value)
  {
    if name !in nameMap then None else MethodOfCode(nameMap[name])
  }

  /** Method values of the name map index the method table. */
  predicate MethodsIndexed(nameMap: map<string, int>, methods: seq<MethodSlot>) {
    forall name :: name in nameMap && nameMap[name] < 0 ==> -1 - nameMap[name] < |methods|
  }

  /** `zis_type_obj_get_method`: the method the name maps to, or `NULL` (here `None`). */
  function GetMethod(nameMap: map<string, int>, methods: seq<MethodSlot>, name: string): (r: Option<MethodSlot>)
    requires MethodsIndexed(nameMap, methods)
    ensures r.Some? <==> FindMethod(nameMap, name).Some?
    ensures r.Some? ==> r.value == methods[FindMethod(nameMap, name).value]
  {
    match FindMethod(nameMap, name)
    case None => None
    case Some(i) => Some(methods[i])
  }

  // ----- native type definitions -----

  /** `struct zis_native_func_def__named_ref`: an optional name, the function's meta and its code. */
  datatype NativeMethodDef = NativeMethodDef(name: Option<string>, meta: FuncObj.NativeMeta, code: nat)

  /** `struct zis_native_value_def__named`: a name and the value `zis_make_value` makes, or `None` when it fails. */
  datatype NativeStaticDef = NativeStaticDef(name: string, value: Option<Values.Value>)

  /**
   * A terminated array of the definition: `None` is a `NULL` pointer;
   * otherwise the entries up to the first `None`, which is the terminator.
   */
  type Terminated<T> = Option<seq<Option<T>>>

  predicate HasTerminator<T>(arr: Terminated<T>) {
    arr.Some? ==> exists k :: 0 <= k < |arr.value| && arr.value[k].None?
  }

  /** The number of entries before the terminator, 0 for a `NULL` array. */
  function TerminatedLength<T>(arr: Terminated<T>): (n: nat)
    requires HasTerminator(arr)
    ensures arr.None? ==> n == 0
    ensures arr.Some? ==> n < |arr.value| && arr.value[n].None? && forall k :: 0 <= k < n ==> arr.value[k].Some?
  {
    if arr.None? then 0 else FirstNone(arr.value, 0)
  }

  function FirstNone<T>(s: seq<Option<T>>, i: nat): (n: nat)
    requires i <= |s| && exists k :: i <= k < |s| && s[k].None?
    ensures i <= n < |s| && s[n].None? && forall k :: i <= k < n ==> s[k].Some?
    decreases |s| - i
  {
    if s[i].None? then i else FirstNone(s, i + 1)
  }

  /**
   * `_named_func_def_arr_len` and `_named_var_def_arr_len` (and their copies
   * in core/moduleobj.c): walk to the terminator.
   */
  method ArrLen<T>(arr: Terminated<T>) returns (n: nat)
    requires HasTerminator(arr)
    ensures n == TerminatedLength(arr)
  {
    if arr.None? {
      return 0;
    }
    var s := arr.value;
    n := 0;
    while s[n].Some?
      invariant n <= TerminatedLength(arr)
      invariant forall k :: 0 <= k < n ==> s[k].Some?
      decreases TerminatedLength(arr) - n
    {
      n := n + 1;
    }
  }

  /** `struct zis_native_type_def`: the layout, the optional field names, methods and statics. */
  datatype NativeTypeDef = NativeTypeDef(
    slotsNum: Count, bytesSize: Count,
    fields: Option<seq<Option<string>>>,
    methods: Terminated<NativeMethodDef>,
    statics: Terminated<NativeStaticDef>)

  /**
   * What the loader demands of a definition: a field list has one entry
   * per slot of a fixed slot count, the method and static arrays are
   * terminated, and every method meta is in its C types.
   */
  predicate ValidDef(d: NativeTypeDef) {
    (d.fields.Some? ==> d.slotsNum.Fixed? && |d.fields.value| == d.slotsNum.n) &&
    HasTerminator(d.methods) && HasTerminator(d.statics) &&
    (d.methods.Some? ==> forall k :: 0 <= k < |d.methods.value| && d.methods.value[k].Some? ==>
                           FuncObj.ValidNativeMeta(d.methods.value[k].value.meta))
  }

  function FieldCount(d: NativeTypeDef): nat
    requires ValidDef(d)
  {
    if d.fields.Some? then d.slotsNum.n else 0
  }

  /** The name map after the field loop has run over the first k fields: each named field maps to its index. */
  function FieldNames(m: map<string, int>, fields: seq<Option<string>>, k: nat): map<string, int>
    requires k <= |fields|
  {
    if k == 0 then m
    else
      var m' := FieldNames(m, fields, k - 1);
      if fields[k - 1].Some? then m'[fields[k - 1].value := FieldCode(k - 1)] else m'
  }

  /** Whether method entry i is loaded: its meta converts. */
  predicate Converts(e: NativeMethodDef)
    requires FuncObj.ValidNativeMeta(e.meta)
  {
    FuncObj.MetaConv(e.meta).Some?
  }

  predicate ValidMethods(ms: seq<Option<NativeMethodDef>>, k: nat) {
    k <= |ms| && forall i :: 0 <= i < k ==> ms[i].Some? && FuncObj.ValidNativeMeta(ms[i].value.meta)
  }

  /** The name map after the method loop over the first k methods: each loaded, named method maps to `-1 - i`. */
  function MethodNames(m: map<string, int>, ms: seq<Option<NativeMethodDef>>, k: nat): map<string, int>
    requires ValidMethods(ms, k)
  {
    if k == 0 then m
    else
      var m' := MethodNames(m, ms, k - 1);
      var e := ms[k - 1].value;
      if Converts(e) && e.name.Some? then m'[e.name.value := MethodCode(k - 1)] else m'
  }

  /** The method table after the loop over the first k methods: loaded methods fill their slots. */
  function MethodTable(t: seq<MethodSlot>, ms: seq<Option<NativeMethodDef>>, k: nat): (r: seq<MethodSlot>)
    requires ValidMethods(ms, k) && k <= |t|
    ensures |r| == |t|
  {
    if k == 0 then t
    else
      var t' := MethodTable(t, ms, k - 1);
      var e := ms[k - 1].value;
      if Converts(e) then t'[k - 1 := NativeFunc(FuncObj.MetaConv(e.meta).value, e.code)] else t'
  }

  /** The statics after the loop over the first k entries: each value that could be made is set under its name. */
  function StaticsOf(m: map<string, Values.Value>, ss: seq<Option<NativeStaticDef>>, k: nat): map<string, Values.Value>
    requires k <= |ss| && forall i :: 0 <= i < k ==> ss[i].Some?
  {
    if k == 0 then m
    else
      var m' := StaticsOf(m, ss, k - 1);
      var e := ss[k - 1].value;
      if e.value.Some? then m'[e.name := e.value.value] else m'
  }

  /** `struct zis_type_obj`. */
  class Type {
    var slotsNum: Count
    var bytesLen: Count
    var objSize: nat
    var methods: seq<MethodSlot>
    var nameMap: map<string, int>
    var statics: map<string, Values.Value>

    /**
     * The cached size is 0 (not cached) or agrees with the layout, and the
     * method values of the name map index the method table.
     */
    predicate Valid(w: Width)
      reads this
    {
      (objSize != 0 ==> objSize == CachedSize(w, slotsNum, bytesLen)) &&
      MethodsIndexed(nameMap, methods)
    }

    /** `zis_type_obj_new`: no slots, no bytes, no cached size, the empty method table and empty maps. */
    constructor (w: Width)
      ensures Valid(w)
      ensures slotsNum == Fixed(0) && bytesLen == Fixed(0) && objSize == 0
      ensures methods == [] && nameMap == map[] && statics == map[]
    {
      slotsNum, bytesLen, objSize := Fixed(0), Fixed(0), 0;
      methods, nameMap, statics := [], map[], map[];
    }

    /**
     * `_zis_type_obj_bootstrap_alloc` followed by `_zis_type_obj_bootstrap_init`:
     * the layout and the cached size from a definition, then the empty
     * method table and empty maps.
     */
    constructor Bootstrap(w: Width, d: NativeTypeDef)
      ensures Valid(w)
      ensures slotsNum == d.slotsNum && bytesLen == d.bytesSize
      ensures objSize == CachedSize(w, d.slotsNum, d.bytesSize)
      ensures methods == [] && nameMap == map[] && statics == map[]
    {
      slotsNum, bytesLen := d.slotsNum, d.bytesSize;
      objSize := CachedSize(w, d.slotsNum, d.bytesSize);
      methods, nameMap, statics := [], map[], map[];
    }

    /**
     * `zis_type_obj_method_count`: the size of the method table, above every
     * index `find_method` gives.
     */
    function MethodCount(): (n: nat)
      reads this
      ensures n == |methods|
      ensures MethodsIndexed(nameMap, methods) ==>
        forall name :: FindMethod(nameMap, name).Some? ==> FindMethod(nameMap, name).value < n
    {
      |methods|
    }

    /** What an object of this type must hold for its sizes to be read: slot 0 a non-negative small int when slots are extendable. */
    predicate Readable(o: Obj)
      reads this
    {
      slotsNum.Extendable? ==> |o.slots| > 0 && o.slots[0].Small? && o.slots[0].v >= 0
    }

    /** `zis_object_slot_count`: the type's count, or slot 0 read as a small int when extendable. */
    function SlotCount(o: Obj): nat
      reads this
      requires Readable(o)
    {
      if slotsNum.Fixed? then slotsNum.n else o.slots[0].v
    }

    /** `zis_object_bytes_size`: the type's size, or the word at the start of BYTES when extendable. */
    function BytesSize(o: Obj): nat
      reads this
    {
      if bytesLen.Fixed? then bytesLen.n else o.bytesSizeWord
    }

    /**
     * `zis_object_size`: the cached size when it is not 0, otherwise the
     * head, the slots and the bytes, each part read as the two functions
     * above read it.
     */
    function ObjectSize(w: Width, o: Obj): nat
      reads this
      requires Readable(o)
    {
      if objSize != 0 then objSize
      else
        var slotCount := if slotsNum.Fixed? then slotsNum.n else o.slots[0].v;
        var bytesSize := if bytesLen.Fixed? then bytesLen.n else o.bytesSizeWord;
        HeadSize(w) + slotCount * FuncObj.PtrBytes(w) + bytesSize
    }

    /**
     * The cached size never disagrees with the layout: on a valid type the
     * size of every object is its head, its slots and its bytes, with or
     * without the cache.
     */
    lemma ObjectSizeIsLayout(w: Width, o: Obj)
      requires Valid(w) && Readable(o)
      ensures ObjectSize(w, o) == HeadSize(w) + SlotCount(o) * FuncObj.PtrBytes(w) + BytesSize(o)
    {
      if objSize != 0 {
        assert !slotsNum.Extendable? && !bytesLen.Extendable?;
      }
    }

    /** `zis_type_obj_find_field`. */
    function FindFieldOf(name: string): (r: Option<nat>)
      reads this
      ensures r == FindField(nameMap, name)
    {
      FindField(nameMap, name)
    }

    /** `zis_type_obj_find_method`. */
    function FindMethodOf(name: string): (r: Option<nat>)
      reads this
      ensures r == FindMethod(nameMap, name)
    {
      FindMethod(nameMap, name)
    }

    /** `zis_type_obj_get_method`: the method the name maps to, `None` for an absent name or a field. */
    function GetMethodOf(w: Width, name: string): (r: Option<MethodSlot>)
      reads this
      requires Valid(w)
      ensures r.Some? <==> FindMethod(nameMap, name).Some?
      ensures r.Some? ==> r.value == methods[FindMethod(nameMap, name).value]
    {
      GetMethod(nameMap, methods, name)
    }

    /**
     * `zis_type_obj_get_method_i`: no bounds checking in the runtime, so the
     * index must be in the table. At the index `find_method` gives for a
     * name it is the method `get_method` returns for that name.
     */
    function MethodAt(i: nat): (r: MethodSlot)
      reads this
      requires i < |methods|
      ensures r == methods[i]
      ensures MethodsIndexed(nameMap, methods) ==>
        forall name :: FindMethod(nameMap, name) == Some(i) ==> GetMethod(nameMap, methods, name) == Some(r)
    {
      methods[i]
    }

    /** `zis_type_obj_set_method_i`: replace one method, keeping the name map and everything else. */
    method SetMethodAt(w: Width, i: nat, m: MethodSlot)
      requires Valid(w) && i < |methods|
      modifies this
      ensures methods == old(methods)[i := m] && MethodAt(i) == m
      ensures forall j :: 0 <= j < |methods| && j != i ==> MethodAt(j) == old(MethodAt(j))
      ensures nameMap == old(nameMap) && statics == old(statics)
      ensures slotsNum == old(slotsNum) && bytesLen == old(bytesLen) && objSize == old(objSize)
      ensures Valid(w)
    {
      methods := methods[i := m];
    }

    /** `zis_type_obj_get_static`: the static member of that name, `None` (`NULL`) when there is none. */
    function GetStatic(name: string): (r: Option<Values.Value>)
      reads this
      ensures r.Some? <==> name in statics
      ensures r.Some? ==> r.value == statics[name]
    {
      if name in statics then Some(statics[name]) else None
    }

    /** `zis_type_obj_set_static`: add or replace one static member. */
    method SetStatic(w: Width, name: string, value: Values.Value)
      requires Valid(w)
      modifies this
      ensures statics == old(statics)[name := value]
      ensures GetStatic(name) == Some(value)
      ensures forall other :: other != name ==> GetStatic(other) == old(GetStatic(other))
      ensures methods == old(methods) && nameMap == old(nameMap)
      ensures slotsNum == old(slotsNum) && bytesLen == old(bytesLen) && objSize == old(objSize)
      ensures Valid(w)
    {
      statics := statics[name := value];
    }

    /**
     * `zis_type_obj_load_native_def`: the layout and the cached size from
     * the definition; then each named field maps to its slot index, each
     * method whose meta converts becomes a native function in a new table
     * (one slot per method, the others left empty) and, when named, maps to
     * `-1 - i`; each static whose value can be made is set.  A method whose
     * meta fails is skipped.
     */
    method LoadNativeDef(w: Width, d: NativeTypeDef)
      requires ValidDef(d) && methods == [] && MethodsIndexed(nameMap, methods)
      modifies this
      ensures slotsNum == d.slotsNum && bytesLen == d.bytesSize
      ensures objSize == CachedSize(w, d.slotsNum, d.bytesSize)
      ensures var fieldMap := FieldNames(old(nameMap), if d.fields.Some? then d.fields.value else [], FieldCount(d));
              var mc := TerminatedLength(d.methods);
              if mc == 0 then methods == [] && nameMap == fieldMap
              else methods == MethodTable(seq(mc, _ => NoMethod), d.methods.value, mc) &&
                   nameMap == MethodNames(fieldMap, d.methods.value, mc)
      ensures MethodCount() == TerminatedLength(d.methods)
      ensures var sc := TerminatedLength(d.statics);
              statics == if sc == 0 then old(statics) else StaticsOf(old(statics), d.statics.value, sc)
      ensures Valid(w)
    {
      slotsNum, bytesLen := d.slotsNum, d.bytesSize;
      objSize := CachedSize(w, d.slotsNum, d.bytesSize);
      var fieldCount := FieldCount(d);
      var methodCount := ArrLen(d.methods);
      var staticCount := ArrLen(d.statics);

      var names := nameMap;
      if fieldCount != 0 {
        names := LoadFields(names, d.fields.value, fieldCount);
        FieldNamesNoMethods(nameMap, d.fields.value, fieldCount);
      }
      if methodCount != 0 {
        var fieldMap := names;
        methods, names := LoadMethods(names, d.methods.value, methodCount);
        MethodNamesIndexed(fieldMap, d.methods.value, methodCount, methods);
      }
      nameMap := names;
      if staticCount != 0 {
        statics := LoadStatics(statics, d.statics.value, staticCount);
      }
    }
  }

  // ----- the three loops of the loader -----

  /** The field loop of the loader: each named field among the first `count` maps to its index. */
  method LoadFields(m: map<string, int>, fields: seq<Option<string>>, count: nat) returns (r: map<string, int>)
    requires count <= |fields|
    ensures r == FieldNames(m, fields, count)
  {
    r := m;
    var i := 0;
    while i < count
      invariant i <= count && r == FieldNames(m, fields, i)
    {
      var fieldName := fields[i];
      if fieldName.Some? {
        r := r[fieldName.value := FieldCode(i)];
      }
      i := i + 1;
    }
  }

  /**
   * The method loop of the loader: a table of `count` empty slots, filled
   * with each method whose meta converts, its name (if any) mapped to
   * `-1 - i`.
   */
  method LoadMethods(m: map<string, int>, ms: seq<Option<NativeMethodDef>>, count: nat)
    returns (table: seq<MethodSlot>, names: map<string, int>)
    requires ValidMethods(ms, count)
    ensures table == MethodTable(seq(count, _ => NoMethod), ms, count)
    ensures names == MethodNames(m, ms, count)
  {
    table := seq(count, _ => NoMethod);
    names := m;
    var i := 0;
    while i < count
      invariant i <= count
      invariant table == MethodTable(seq(count, _ => NoMethod), ms, i)
      invariant names == MethodNames(m, ms, i)
    {
      var e := ms[i].value;
      var conv := FuncObj.MetaConv(e.meta);
      if conv.Some? {
        table := table[i := NativeFunc(conv.value, e.code)];
        if e.name.Some? {
          names := names[e.name.value := MethodCode(i)];
        }
      }
      i := i + 1;
    }
  }

  /** The statics loop of the loader: each value that could be made is set under its name. */
  method LoadStatics(m: map<string, Values.Value>, ss: seq<Option<NativeStaticDef>>, count: nat)
    returns (r: map<string, Values.Value>)
    requires count <= |ss| && forall i :: 0 <= i < count ==> ss[i].Some?
    ensures r == StaticsOf(m, ss, count)
  {
    r := m;
    var i := 0;
    while i < count
      invariant i <= count && r == StaticsOf(m, ss, i)
    {
      var e := ss[i].value;
      if e.value.Some? {
        r := r[e.name := e.value.value];
      }
      i := i + 1;
    }
  }

  /** Fields add only non-negative values, so a map with no method values keeps none. */
  lemma {:induction false} FieldNamesNoMethods(m: map<string, int>, fields: seq<Option<string>>, k: nat)
    requires k <= |fields| && MethodsIndexed(m, [])
    ensures MethodsIndexed(FieldNames(m, fields, k), [])
  {
    if k > 0 {
      FieldNamesNoMethods(m, fields, k - 1);
    }
  }

  /** After the method loop, every method value of the name map indexes the new table. */
  lemma {:induction false} MethodNamesIndexed(m: map<string, int>, ms: seq<Option<NativeMethodDef>>, k: nat, t: seq<MethodSlot>)
    requires ValidMethods(ms, k) && k <= |t| && MethodsIndexed(m, [])
    ensures MethodsIndexed(MethodNames(m, ms, k), t)
  {
    if k > 0 {
      MethodNamesIndexed(m, ms, k - 1, t);
    }
  }
  // ----- what a loaded name map answers -----

  /** A field name maps to the index of its last occurrence among the first k fields. */
  lemma {:induction false} FieldNamesLast(m: map<string, int>, fields: seq<Option<string>>, k: nat, i: nat, name: string)
    requires i < k <= |fields| && fields[i] == Some(name)
    requires forall j :: i < j < k ==> fields[j] != Some(name)
    ensures name in FieldNames(m, fields, k) && FieldNames(m, fields, k)[name] == FieldCode(i)
  {
    if k - 1 != i {
      FieldNamesLast(m, fields, k - 1, i, name);
    }
  }

  /** A name no field among the first k carries keeps its entry (or its absence). */
  lemma {:induction false} FieldNamesOther(m: map<string, int>, fields: seq<Option<string>>, k: nat, name: string)
    requires k <= |fields| && forall j :: 0 <= j < k ==> fields[j] != Some(name)
    ensures name in FieldNames(m, fields, k) <==> name in m
    ensures name in m ==> FieldNames(m, fields, k)[name] == m[name]
  {
    if k > 0 {
      FieldNamesOther(m, fields, k - 1, name);
    }
  }

  /** A loaded method name maps to `-1 - i` for the last loaded method of that name among the first k. */
  lemma {:induction false} MethodNamesLast(m: map<string, int>, ms: seq<Option<NativeMethodDef>>, k: nat, i: nat, name: string)
    requires ValidMethods(ms, k) && i < k
    requires ms[i].value.name == Some(name) && Converts(ms[i].value)
    requires forall j :: i < j < k ==> !(ms[j].value.name == Some(name) && Converts(ms[j].value))
    ensures name in MethodNames(m, ms, k) && MethodNames(m, ms, k)[name] == MethodCode(i)
  {
    if k - 1 != i {
      MethodNamesLast(m, ms, k - 1, i, name);
    }
  }

  /** A name no loaded method among the first k carries keeps its entry (or its absence). */
  lemma {:induction false} MethodNamesOther(m: map<string, int>, ms: seq<Option<NativeMethodDef>>, k: nat, name: string)
    requires ValidMethods(ms, k)
    requires forall j :: 0 <= j < k ==> !(ms[j].value.name == Some(name) && Converts(ms[j].value))
    ensures name in MethodNames(m, ms, k) <==> name in m
    ensures name in m ==> MethodNames(m, ms, k)[name] == m[name]
  {
    if k > 0 {
      MethodNamesOther(m, ms, k - 1, name);
    }
  }

  /** Slot i of the table is the converted method when its meta converts, and stays as it was otherwise. */
  lemma {:induction false} MethodTableSlot(t: seq<MethodSlot>, ms: seq<Option<NativeMethodDef>>, k: nat, i: nat)
    requires ValidMethods(ms, k) && k <= |t| && i < k
    ensures var e := ms[i].value;
            MethodTable(t, ms, k)[i] == if Converts(e) then NativeFunc(FuncObj.MetaConv(e.meta).value, e.code) else t[i]
  {
    if k - 1 != i {
      MethodTableSlot(t, ms, k - 1, i);
    } else {
      MethodTableBeyond(t, ms, k - 1, i);
    }
  }

  /** Slots at or past k are untouched by the first k methods. */
  lemma {:induction false} MethodTableBeyond(t: seq<MethodSlot>, ms: seq<Option<NativeMethodDef>>, k: nat, j: nat)
    requires ValidMethods(ms, k) && k <= j < |t|
    ensures MethodTable(t, ms, k)[j] == t[j]
  {
    if k > 0 {
      MethodTableBeyond(t, ms, k - 1, j);
    }
  }

  /**
   * After loading, a field name with no later field of that name and no
   * loaded method of that name is found as its slot index, and is not a
   * method.
   */
  lemma FindFieldAfterLoad(fields: seq<Option<string>>, ms: seq<Option<NativeMethodDef>>, mc: nat, m: map<string, int>, i: nat, name: string)
    requires ValidMethods(ms, mc) && i < |fields| && fields[i] == Some(name)
    requires forall j :: i < j < |fields| ==> fields[j] != Some(name)
    requires forall j :: 0 <= j < mc ==> !(ms[j].value.name == Some(name) && Converts(ms[j].value))
    ensures var nm := MethodNames(FieldNames(m, fields, |fields|), ms, mc);
            FindField(nm, name) == Some(i) && FindMethod(nm, name).None?
  {
    FieldNamesLast(m, fields, |fields|, i, name);
    MethodNamesOther(FieldNames(m, fields, |fields|), ms, mc, name);
  }

  /**
   * After loading, the last loaded method of a name is found as its table
   * index, is not a field, and `get_method` returns the native function
   * its definition converts to.
   */
  lemma GetMethodAfterLoad(m: map<string, int>, ms: seq<Option<NativeMethodDef>>, mc: nat, i: nat, name: string)
    requires ValidMethods(ms, mc) && i < mc
    requires ms[i].value.name == Some(name) && Converts(ms[i].value)
    requires forall j :: i < j < mc ==> !(ms[j].value.name == Some(name) && Converts(ms[j].value))
    ensures var nm := MethodNames(m, ms, mc);
            var t := MethodTable(seq(mc, _ => NoMethod), ms, mc);
            FindMethod(nm, name) == Some(i) && FindField(nm, name).None? &&
            t[i] == NativeFunc(FuncObj.MetaConv(ms[i].value.meta).value, ms[i].value.code)
  {
    MethodNamesLast(m, ms, mc, i, name);
    MethodTableSlot(seq(mc, _ => NoMethod), ms, mc, i);
  }

  /** A method whose meta does not convert leaves its table slot empty. */
  lemma SkippedMethodSlot(ms: seq<Option<NativeMethodDef>>, mc: nat, i: nat)
    requires ValidMethods(ms, mc) && i < mc && !Converts(ms[i].value)
    ensures MethodTable(seq(mc, _ => NoMethod), ms, mc)[i] == NoMethod
  {
    MethodTableSlot(seq(mc, _ => NoMethod), ms, mc, i);
  }
}
