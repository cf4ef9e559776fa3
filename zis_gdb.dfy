/**
 * The debugger pretty-printer for object pointers (tools/zis_gdb.py).  It sees
 * a pointer value as a plain non-negative integer, reads the two header words
 * of the object it points to, and renders a one-line description.  The
 * debugger's memory reads become a map from addresses to header words; the
 * runtime-context lookup becomes an optional list of the `globals` structure's
 * (field name, value) pairs.
 */
module ZisGdb {
  import opened Words
  import opened Numerals
  import opened Wrappers
  import SmallInt

  /** The two header words `_meta._1` and `_meta._2` of an object. */
  datatype Meta = Meta(w1: nat, w2: nat)

  /** What reading the target's memory can yield: the header, or a memory error for an unreadable address. */
  datatype Read<T> = Fetched(value: T) | MemoryError(addr: nat)

  /** A global of the runtime context: field name (possibly empty) and its value. */
  datatype GlobalField = GlobalField(name: string, value: nat)

  /** `ObjPtrPrinter`: the pointer's raw value, the target's readable headers, and the context's globals if found. */
  datatype Printer = Printer(width: Width, val: nat, heap: map<nat, Meta>, ctx: Option<seq<GlobalField>>)

  const GcObjStatNames: seq<string> := ["NEW", "MID", "OLD", "BIG"]

  /** `is_smallint`: the low bit of the raw value is set. */
  predicate IsSmallInt(p: Printer) {
    p.val % 2 != 0
  }

  /**
   * `smi_value`: when bit W-1 is set the value is `-((2^W - (raw & (2^W - 2))) >> 1)`,
   * otherwise `raw >> 1`.  For a raw word below 2^W, `raw & (2^W - 2)` clears bit 0.
   */
  function SmiValue(w: Width, raw: nat): (v: int)
    requires IsUWord(w, raw)
  {
    var negative := (raw / Half(w)) % 2 == 1;
    if negative then -((Modulus(w) - (raw - raw % 2)) / 2) else raw / 2
  }

  /** The printer's formula agrees with `zis_smallint_from_ptr` on every tagged word. */
  lemma SmiValueIsFromPtr(w: Width, raw: nat)
    requires IsUWord(w, raw) && raw % 2 == 1
    ensures SmiValue(w, raw) == SmallInt.FromPtr(w, raw)
  {
  }

  /** `smi_value` inverts `zis_smallint_to_ptr` over the whole small-int range. */
  lemma SmiValueOfToPtr(w: Width, v: int)
    requires SmallInt.InRange(w, v)
    ensures SmiValue(w, SmallInt.ToPtr(w, v)) == v
  {
    SmiValueIsFromPtr(w, SmallInt.ToPtr(w, v));
  }

  /** The boundary checks: the all-ones word is -1 and the word 1 is 0. */
  lemma SmiValueBoundaries(w: Width)
    ensures SmiValue(w, Modulus(w) - 1) == -1
    ensures SmiValue(w, 1) == 0
    ensures SmiValue(w, Half(w) - 1) == SmallInt.Max(w)
    ensures SmiValue(w, Half(w) + 1) == SmallInt.Min(w)
  {
  }

  /** `(obj_meta_1 >> 2) << 2`: the header word with its two low bits cleared. */
  function TypePtr(w1: nat): (t: nat)
    ensures t % 4 == 0 && t <= w1 < t + 4
  {
    (w1 / 4) * 4
  }

  /** `type_name_from_addr`: the first global whose value is `addr`; an empty name or no match is None. */
  function TypeNameFromAddr(ctx: Option<seq<GlobalField>>, addr: nat): (r: Option<string>)
    ensures ctx.None? ==> r.None?
  {
    match ctx
    case None => None
    case Some(fields) => NameIn(fields, addr)
  }

  function NameIn(fields: seq<GlobalField>, addr: nat): (r: Option<string>)
  {
    if fields == [] then None
    else if fields[0].value == addr then
      var name := fields[0].name;
      if name == [] then None
      else if |name| >= 5 && name[..5] == "type_" then Some("builtin/" + name[5..])
      else Some(name)
    else NameIn(fields[1..], addr)
  }

  /** The name found, if any, belongs to the first field holding `addr`, rewritten as the source does. */
  lemma {:induction false} NameInFirstMatch(fields: seq<GlobalField>, addr: nat, k: nat)
    requires k < |fields| && fields[k].value == addr
    requires forall j :: 0 <= j < k ==> fields[j].value != addr
    ensures var name := fields[k].name;
            NameIn(fields, addr) ==
              if name == [] then None
              else if |name| >= 5 && name[..5] == "type_" then Some("builtin/" + name[5..])
              else Some(name)
  {
    if k > 0 {
      NameInFirstMatch(fields[1..], addr, k - 1);
    }
  }

  /** No field holds `addr`: no name. */
  lemma {:induction false} NameInNoMatch(fields: seq<GlobalField>, addr: nat)
    requires forall j :: 0 <= j < |fields| ==> fields[j].value != addr
    ensures NameIn(fields, addr) == None
  {
    if fields != [] {
      NameInNoMatch(fields[1..], addr);
    }
  }

  /** `obj_type`: the type's global name, or `<0x…>` when unresolved. */
  function ObjType(p: Printer): (r: Read<string>)
    ensures r.Fetched? <==> p.val in p.heap
    ensures r.Fetched? && TypeNameFromAddr(p.ctx, TypePtr(p.heap[p.val].w1)).None? ==>
              r.value == "<" + HexText(TypePtr(p.heap[p.val].w1)) + ">"
    ensures r.Fetched? && TypeNameFromAddr(p.ctx, TypePtr(p.heap[p.val].w1)).Some? ==>
              r.value == TypeNameFromAddr(p.ctx, TypePtr(p.heap[p.val].w1)).value
  {
    if p.val !in p.heap then MemoryError(p.val)
    else
      var typePtr := TypePtr(p.heap[p.val].w1);
      match TypeNameFromAddr(p.ctx, typePtr)
      case Some(name) => Fetched(name)
      case None => Fetched("<" + HexText(typePtr) + ">")
  }

  function BoolText(b: bool): string {
    if b then "True" else "False"
  }

  /** The GC state name indexed by the two low bits of `_1`. */
  function GcStateName(w1: nat): (s: string)
    ensures s in GcObjStatNames
    ensures s == "NEW" <==> w1 % 4 == 0
    ensures s == "MID" <==> w1 % 4 == 1
    ensures s == "OLD" <==> w1 % 4 == 2
    ensures s == "BIG" <==> w1 % 4 == 3
  {
    GcObjStatNames[w1 % 4]
  }

  /** `obj_gc_info`: `{state=<name>, marked=<bit 0 of _2>}`. */
  function ObjGcInfo(p: Printer): (r: Read<string>)
    ensures r.Fetched? <==> p.val in p.heap
    ensures r.Fetched? ==> r.value == "{state=" + GcStateName(p.heap[p.val].w1) + ", marked=" +
                                 BoolText(p.heap[p.val].w2 % 2 != 0) + "}"
  {
    if p.val !in p.heap then MemoryError(p.val)
    else
      var m := p.heap[p.val];
      Fetched("{state=" + GcStateName(m.w1) + ", marked=" + BoolText(m.w2 % 2 != 0) + "}")
  }

  /** `to_string`: `smallint{v}` for tagged values, otherwise the address, type and GC info. */
  function ToString(p: Printer): (r: Read<string>)
    requires IsUWord(p.width, p.val)
    ensures IsSmallInt(p) ==> r == Fetched("smallint{" + DecimalText(SmiValue(p.width, p.val)) + "}")
    ensures !IsSmallInt(p) ==> (r.Fetched? <==> p.val in p.heap)
    ensures !IsSmallInt(p) && r.Fetched? ==>
              r.value == HexText(p.val) + " zis_object{ type=" + ObjType(p).value +
                         ", gc_info=" + ObjGcInfo(p).value + " }"
  {
    if IsSmallInt(p) then
      Fetched("smallint{" + DecimalText(SmiValue(p.width, p.val)) + "}")
    else
      match (ObjType(p), ObjGcInfo(p))
      case (Fetched(t), Fetched(g)) => Fetched(HexText(p.val) + " zis_object{ type=" + t + ", gc_info=" + g + " }")
      case _ => MemoryError(p.val)
  }

  /** The printed value of a tagged small int is the value `zis_smallint_to_ptr` encoded. */
  lemma ToStringOfSmallInt(w: Width, v: int, heap: map<nat, Meta>, ctx: Option<seq<GlobalField>>)
    requires SmallInt.InRange(w, v)
    ensures ToString(Printer(w, SmallInt.ToPtr(w, v), heap, ctx)) == Fetched("smallint{" + DecimalText(v) + "}")
  {
    SmiValueOfToPtr(w, v);
  }
}
