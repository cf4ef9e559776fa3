/**
 * The `Array` type of `core/arrayobj.h` and `core/arrayobj.c`: an
 * `Array.Slots` storage object (a fixed number of slots whose count is kept
 * as a small integer, one more than the slots) and the `Array` object that
 * uses a prefix of its storage as its elements. Unused storage slots hold
 * the filler. The runtime's shared empty storage is passed in where the
 * source reads it from the globals.
 */
module ArrayObj {
  import opened Values
  import opened Wrappers
  import opened ObjVec

  /** `struct zis_array_slots_obj`. */
  class Slots {
    const slotsNum: nat
    const data: array<Value>

    /** The stored count is at least 1 and counts the slots plus itself. */
    ghost predicate Valid()
      reads this
    {
      slotsNum >= 1 && data.Length == slotsNum - 1
    }

    /** `array_slots_obj_alloc`: `n` slots, not written. */
    constructor Alloc(n: nat)
      ensures Valid() && data.Length == n && fresh(data)
      ensures data[..] == seq(n, _ => Unwritten)
    {
      slotsNum := n + 1;
      data := new Value[n](_ => Unwritten);
    }

    /** `zis_array_slots_obj_length`: the stored count minus 1 is the number of slots. */
    function Length(): (n: nat)
      requires Valid()
      reads this
      ensures n == data.Length
    {
      slotsNum - 1
    }

    /** `zis_array_slots_obj_get`. */
    function Get(i: nat): (v: Value)
      requires Valid() && i < Length()
      reads this, data
      ensures v == data[..][i]
    {
      data[i]
    }

    /** `zis_array_slots_obj_set`: writes slot `i` and no other. */
    method Set(i: nat, v: Value)
      requires Valid() && i < Length()
      modifies data
      ensures data[..] == old(data[..])[i := v]
    {
      data[i] := v;
    }
  }

  /** The shared empty storage (`val_empty_array_slots`). */
  ghost predicate IsEmptySlots(s: Slots)
    reads s
  {
    s.Valid() && s.data.Length == 0
  }

  /**
   * `zis_array_slots_obj_new`: no slots gives the shared empty storage;
   * otherwise fresh storage holding `v`, or the filler when `v` is NULL.
   */
  method SlotsNew(v: Option<seq<Value>>, n: nat, empty: Slots) returns (s: Slots)
    requires IsEmptySlots(empty)
    requires v.Some? ==> |v.value| == n
    ensures s.Valid() && s.data.Length == n
    ensures n == 0 ==> s == empty
    ensures n > 0 ==> fresh(s) && fresh(s.data)
    ensures s.data[..] == if v.Some? then v.value else seq(n, _ => Filler)
  {
    if n == 0 {
      return empty;
    }
    s := new Slots.Alloc(n);
    if v.Some? {
      VecCopy(s.data, 0, v.value);
    } else {
      VecZero(s.data, 0, n);
    }
  }

  /**
   * `zis_array_slots_obj_new2`: `len` slots, the first `min(len, |other|)`
   * copied from `other` and the rest the filler; length 0 gives the shared
   * empty storage.
   */
  method SlotsNew2(len: nat, other: Slots, empty: Slots) returns (s: Slots)
    requires IsEmptySlots(empty) && other.Valid()
    ensures s.Valid() && s.data.Length == len
    ensures len == 0 ==> s == empty
    ensures len > 0 ==> fresh(s) && fresh(s.data)
    ensures var n := if other.data.Length > len then len else other.data.Length;
            s.data[..] == other.data[..n] + seq(len - n, _ => Filler)
  {
    if len == 0 {
      return empty;
    }
    s := new Slots.Alloc(len);
    var n := other.Length();
    if n > len {
      n := len;
    }
    VecCopy(s.data, 0, other.data[..n]);
    VecZero(s.data, n, len - n);
    assert s.data[..] == s.data[..n] + s.data[n..len];
  }

  /** The capacity an `append` or `insert` grows full storage to: double, or 4 when below 2. */
  function GrownCapacity(cap: nat): (c: nat)
    ensures c > cap && c >= 4
  {
    if cap >= 2 then cap * 2 else 4
  }

  /** The element sequence after inserting `v` at `pos`. */
  function Inserted(s: seq<Value>, pos: nat, v: Value): (r: seq<Value>)
    requires pos <= |s|
    ensures |r| == |s| + 1 && r[pos] == v
    ensures forall i :: 0 <= i < pos ==> r[i] == s[i]
    ensures forall i :: pos < i < |r| ==> r[i] == s[i - 1]
  {
    s[..pos] + [v] + s[pos..]
  }

  /** The element sequence after removing the one at `pos`. */
  function Removed(s: seq<Value>, pos: nat): (r: seq<Value>)
    requires pos < |s|
    ensures |r| == |s| - 1
    ensures forall i :: 0 <= i < pos ==> r[i] == s[i]
    ensures forall i :: pos <= i < |r| ==> r[i] == s[i + 1]
  {
    s[..pos] + s[pos + 1..]
  }

  /** Removing an inserted element gives back the original sequence. */
  lemma RemoveInserted(s: seq<Value>, pos: nat, v: Value)
    requires pos <= |s|
    ensures Removed(Inserted(s, pos, v), pos) == s
  {
    var r := Removed(Inserted(s, pos, v), pos);
    assert forall i :: 0 <= i < |s| ==> r[i] == s[i];
  }

  /** Every value is the filler: what unused storage slots hold. */
  predicate AllFiller(s: seq<Value>) {
    forall i :: 0 <= i < |s| ==> s[i] == Filler
  }

  /**
   * The storage an `insert` that grows full storage leaves, as written: the
   * elements with `v` inserted and the rest of the new storage not written,
   * since the slots come from `array_slots_obj_alloc` and only the first
   * `|s| + 1` are stored to.
   */
  function GrownForInsertAsWritten(s: seq<Value>, pos: nat, v: Value, newCap: nat): seq<Value>
    requires pos <= |s| < newCap
  {
    Inserted(s, pos, v) + seq(newCap - |s| - 1, _ => Unwritten)
  }

  /** The intended storage: the unused slots hold the filler, as every other operation leaves them. */
  function GrownForInsert(s: seq<Value>, pos: nat, v: Value, newCap: nat): (r: seq<Value>)
    requires pos <= |s| < newCap
    ensures |r| == newCap && AllFiller(r[|s| + 1..])
  {
    Inserted(s, pos, v) + seq(newCap - |s| - 1, _ => Filler)
  }

  /**
   * Inserting at the front of a full array of 4 elements grows the storage
   * to 8 slots, of which the last 3 are never written, where the intended
   * storage has the filler.
   */
  lemma GrownForInsertAsWrittenLeavesUnwritten()
    ensures var s := [Small(1), Small(2), Small(3), Small(4)];
      var r := GrownForInsertAsWritten(s, 0, Small(0), GrownCapacity(4));
      |r| == 8 && r[5] == Unwritten && r[6] == Unwritten && r[7] == Unwritten &&
      !AllFiller(r[5..]) && AllFiller(GrownForInsert(s, 0, Small(0), GrownCapacity(4))[5..])
  {
    var s := [Small(1), Small(2), Small(3), Small(4)];
    var r := GrownForInsertAsWritten(s, 0, Small(0), GrownCapacity(4));
    assert r[5..][0] == Unwritten;
  }

  /** Writes `src` with `v` inserted at `pos` to the front of `a`. */
  method WriteInserted(a: array<Value>, src: seq<Value>, pos: nat, v: Value)
    requires pos <= |src| < a.Length
    modifies a
    ensures a[..|src| + 1] == Inserted(src, pos, v)
    ensures a[|src| + 1..] == old(a[|src| + 1..])
  {
    VecCopy(a, 0, src[..pos]);
    VecCopy(a, pos + 1, src[pos..]);
    a[pos] := v;
    assert a[..|src| + 1] == a[..pos] + [a[pos]] + a[pos + 1..|src| + 1];
  }

  /** Writes `src` without the element at `pos` to the front of `a`. */
  method WriteRemoved(a: array<Value>, src: seq<Value>, pos: nat)
    requires pos < |src| <= a.Length + 1
    modifies a
    ensures a[..|src| - 1] == Removed(src, pos)
    ensures a[|src| - 1..] == old(a[|src| - 1..])
  {
    VecCopy(a, 0, src[..pos]);
    VecCopy(a, pos, src[pos + 1..]);
    assert a[..|src| - 1] == a[..pos] + a[pos..|src| - 1];
  }

  /**
   * The in-place branch of `zis_array_obj_insert`: the elements from `pos`
   * move one slot up and `v` takes `pos`.
   */
  method ShiftInsert(a: array<Value>, len: nat, pos: nat, v: Value)
    requires pos < len < a.Length
    modifies a
    ensures a[..len + 1] == Inserted(old(a[..len]), pos, v)
    ensures a[len + 1..] == old(a[len + 1..])
  {
    ghost var s := a[..len];
    VecMove(a, pos + 1, pos, len - pos);
    assert a[pos + 1..len + 1] == s[pos..];
    assert a[..pos] == s[..pos];
    a[pos] := v;
    assert a[..len + 1] == a[..pos] + [a[pos]] + a[pos + 1..len + 1];
  }

  /**
   * The in-place branch of `zis_array_obj_remove`: the elements after `pos`
   * move one slot down and the freed last slot gets the filler.
   */
  method ShiftRemove(a: array<Value>, len: nat, pos: nat)
    requires pos + 1 < len <= a.Length
    modifies a
    ensures a[..len - 1] == Removed(old(a[..len]), pos)
    ensures a[len - 1] == Filler
    ensures a[len..] == old(a[len..])
  {
    ghost var s := a[..len];
    VecMove(a, pos, pos + 1, len - 1 - pos);
    assert a[pos..len - 1] == s[pos + 1..];
    assert a[..pos] == s[..pos];
    a[len - 1] := Filler;
    assert a[..len - 1] == a[..pos] + a[pos..len - 1];
  }

  /**
   * The growing branch of `zis_array_obj_insert`: new storage of the grown
   * capacity gets the elements before `pos`, then `v`, then the rest, and
   * (unlike the source) the filler after them.
   */
  method GrowForInsert(from: Slots, pos: nat, v: Value) returns (s: Slots)
    requires from.Valid() && pos < from.data.Length
    ensures fresh(s) && fresh(s.data) && s.Valid()
    ensures s.data[..] == GrownForInsert(from.data[..], pos, v, GrownCapacity(from.data.Length))
  {
    var len := from.Length();
    var newCap := GrownCapacity(len);
    s := new Slots.Alloc(newCap);
    WriteInserted(s.data, from.data[..], pos, v);
    ghost var front := s.data[..len + 1];
    VecZero(s.data, len + 1, newCap - len - 1);
    assert s.data[..len + 1] == front;
    assert s.data[len + 1..] == seq(newCap - len - 1, _ => Filler);
    assert s.data[..] == s.data[..len + 1] + s.data[len + 1..];
  }

  /**
   * The same branch as the source writes it: the slots past the new
   * length keep what the allocation left there.
   */
  method GrowForInsertAsWritten(from: Slots, pos: nat, v: Value) returns (s: Slots)
    requires from.Valid() && pos < from.data.Length
    ensures fresh(s) && fresh(s.data) && s.Valid()
    ensures s.data[..] == GrownForInsertAsWritten(from.data[..], pos, v, GrownCapacity(from.data.Length))
  {
    var len := from.Length();
    var newCap := GrownCapacity(len);
    s := new Slots.Alloc(newCap);
    WriteInserted(s.data, from.data[..], pos, v);
    assert s.data[..] == s.data[..len + 1] + s.data[len + 1..];
  }

  /**
   * The shrinking branch of `zis_array_obj_remove`: new storage of exactly
   * `len` slots gets the elements without the one at `pos`, then the filler.
   */
  method ShrinkForRemove(from: Slots, len: nat, pos: nat) returns (s: Slots)
    requires from.Valid() && pos + 1 < len <= from.data.Length
    ensures fresh(s) && fresh(s.data) && s.Valid() && s.data.Length == len
    ensures s.data[..] == Removed(from.data[..len], pos) + [Filler]
  {
    s := new Slots.Alloc(len);
    WriteRemoved(s.data, from.data[..len], pos);
    s.data[len - 1] := Filler;
    assert s.data[..] == s.data[..len - 1] + [s.data[len - 1]];
  }

  /** `struct zis_array_obj`. */
  class Array {
    var slots: Slots
    var length: nat

    /** The elements are a prefix of the storage and the slots past them hold the filler. */
    ghost predicate Valid()
      reads this, slots, slots.data
    {
      slots.Valid() && length <= slots.data.Length && AllFiller(slots.data[length..])
    }

    /** The elements. */
    function Elements(): seq<Value>
      requires Valid()
      reads this, slots, slots.data
    {
      slots.data[..length]
    }

    function Capacity(): nat
      requires Valid()
      reads this, slots, slots.data
    {
      slots.Length()
    }

    /**
     * `zis_array_obj_new`: `n` elements taken from `v`, or the filler when
     * `v` is NULL, in storage of exactly `n` slots.
     */
    constructor New(v: Option<seq<Value>>, n: nat, empty: Slots)
      requires IsEmptySlots(empty)
      requires v.Some? ==> |v.value| == n
      ensures Valid() && length == n && Capacity() == n
      ensures Elements() == if v.Some? then v.value else seq(n, _ => Filler)
      ensures n == 0 ==> slots == empty
      ensures n > 0 ==> fresh(slots) && fresh(slots.data)
    {
      var data := SlotsNew(v, n, empty);
      slots := data;
      length := n;
      new;
      assert slots.data[..] == slots.data[..length];
    }

    /** `zis_array_obj_get_checked`: nothing when `i` is past the end, else element `i`. */
    function GetChecked(i: nat): (r: Option<Value>)
      requires Valid()
      reads this, slots, slots.data
      ensures r.None? <==> i >= |Elements()|
      ensures r.Some? ==> r.value == Elements()[i]
    {
      if i >= length then None else Some(slots.Get(i))
    }

    /** `zis_array_obj_set_checked`: fails and changes nothing when `i` is past the end. */
    method SetChecked(i: nat, v: Value) returns (ok: bool)
      requires Valid()
      modifies slots.data
      ensures Valid() && slots == old(slots) && length == old(length)
      ensures ok <==> i < old(length)
      ensures Elements() == if ok then old(Elements())[i := v] else old(Elements())
    {
      if i >= length {
        return false;
      }
      slots.Set(i, v);
      assert slots.data[length..] == old(slots.data[length..]);
      assert Elements() == old(Elements())[i := v];
      ok := true;
    }

    /** `zis_array_obj_front`: nothing for an empty array, else the first element. */
    function Front(): (r: Option<Value>)
      requires Valid()
      reads this, slots, slots.data
      ensures r.None? <==> Elements() == []
      ensures r.Some? ==> r.value == Elements()[0]
    {
      if length != 0 then Some(slots.data[0]) else None
    }

    /** `zis_array_obj_back`: nothing for an empty array, else the last element. */
    function Back(): (r: Option<Value>)
      requires Valid()
      reads this, slots, slots.data
      ensures r.None? <==> Elements() == []
      ensures r.Some? ==> r.value == Elements()[|Elements()| - 1]
    {
      var n := length;
      if n != 0 then Some(slots.data[n - 1]) else None
    }

    /**
     * `zis_array_obj_append`: `v` becomes the new last element; full
     * storage is first replaced by `SlotsNew2` of the grown capacity.
     */
    method Append(v: Value, empty: Slots)
      requires Valid() && IsEmptySlots(empty)
      modifies this, slots.data
      ensures Valid()
      ensures Elements() == old(Elements()) + [v]
      ensures Capacity() == if old(length) == old(Capacity()) then GrownCapacity(old(Capacity())) else old(Capacity())
      ensures old(length) == old(Capacity()) ==> fresh(slots) && fresh(slots.data)
      ensures old(length) < old(Capacity()) ==> slots == old(slots)
    {
      var data := slots;
      var oldCap := data.Length();
      var oldLen := length;
      ghost var elems := Elements();
      if oldLen == oldCap {
        var newCap := GrownCapacity(oldCap);
        data := SlotsNew2(newCap, data, empty);
        assert data.data[..oldLen] == elems;
        slots := data;
      }
      ghost var before := data.data[..];
      data.Set(oldLen, v);
      assert data.data[oldLen + 1..] == before[oldLen + 1..];
      length := oldLen + 1;
      assert data.data[..length] == before[..oldLen] + [v];
    }

    /**
     * `zis_array_obj_pop`: nothing for an empty array; otherwise the last
     * element, which is removed and its slot set to the filler.
     */
    method Pop() returns (r: Option<Value>)
      requires Valid()
      modifies this, slots.data
      ensures Valid() && slots == old(slots)
      ensures old(length) == 0 ==> r.None? && length == 0 && slots.data[..] == old(slots.data[..])
      ensures old(length) > 0 ==> r == Some(old(Elements())[old(length) - 1])
      ensures old(length) > 0 ==> Elements() == old(Elements())[..old(length) - 1]
    {
      var data := slots;
      var oldLen := length;
      if oldLen == 0 {
        return None;
      }
      var newLen := oldLen - 1;
      length := newLen;
      var elem := data.Get(newLen);
      data.Set(newLen, Filler);
      assert data.data[newLen..] == [Filler] + old(data.data[oldLen..]);
      assert Elements() == old(Elements())[..newLen];
      r := Some(elem);
    }

    /**
     * `zis_array_obj_insert`: a position past the end fails and changes
     * nothing, the end appends; otherwise the elements from `pos` move one
     * up and `v` takes `pos`. Full storage grows as for `Append`, through
     * `GrowForInsert` (see `GrowForInsertAsWritten` for what the source
     * leaves in the new slots).
     */
    method Insert(pos: nat, v: Value, empty: Slots) returns (ok: bool)
      requires Valid() && IsEmptySlots(empty)
      modifies this, slots.data
      ensures Valid()
      ensures ok <==> pos <= old(length)
      ensures ok ==> Elements() == Inserted(old(Elements()), pos, v)
      ensures !ok ==> Elements() == old(Elements()) && slots == old(slots)
      ensures ok ==> Capacity() == if old(length) == old(Capacity()) then GrownCapacity(old(Capacity())) else old(Capacity())
    {
      var oldLen := length;
      if pos >= oldLen {
        if pos > oldLen {
          return false;
        }
        Append(v, empty);
        assert Inserted(old(Elements()), pos, v) == old(Elements()) + [v];
        return true;
      }
      if oldLen == Capacity() {
        InsertGrowing(pos, v);
      } else {
        InsertInPlace(pos, v);
      }
      ok := true;
    }

    /** The branch of `Insert` for a position inside full storage. */
    method InsertGrowing(pos: nat, v: Value)
      requires Valid() && pos < length == Capacity()
      modifies this
      ensures Valid() && fresh(slots) && fresh(slots.data)
      ensures Elements() == Inserted(old(Elements()), pos, v)
      ensures Capacity() == GrownCapacity(old(Capacity()))
    {
      var oldLen := length;
      assert slots.data[..] == Elements();
      var grown := GrowForInsert(slots, pos, v);
      slots := grown;
      length := oldLen + 1;
      assert Elements() == grown.data[..oldLen + 1];
    }

    /** The branch of `Insert` for a position inside storage with room. */
    method InsertInPlace(pos: nat, v: Value)
      requires Valid() && pos < length < Capacity()
      modifies this, slots.data
      ensures Valid() && slots == old(slots)
      ensures Elements() == Inserted(old(Elements()), pos, v)
    {
      var oldLen := length;
      ghost var tail := slots.data[oldLen..];
      ShiftInsert(slots.data, oldLen, pos, v);
      assert slots.data[oldLen + 1..] == tail[1..];
      length := oldLen + 1;
    }

    /**
     * `zis_array_obj_remove`: a position past the end fails; the last
     * position pops; otherwise the later elements move one down and the
     * freed slot gets the filler. Storage at most half used by at least 16
     * elements is first replaced by storage of exactly the old length.
     */
    method Remove(pos: nat) returns (ok: bool)
      requires Valid()
      modifies this, slots.data
      ensures Valid()
      ensures ok <==> pos < old(length)
      ensures ok ==> Elements() == Removed(old(Elements()), pos)
      ensures !ok ==> Elements() == old(Elements()) && slots == old(slots)
      ensures ok ==> Capacity() ==
                       if pos < old(length) - 1 && old(length) <= old(Capacity()) / 2 && old(length) >= 16
                       then old(length) else old(Capacity())
    {
      var oldLen := length;
      if pos >= oldLen {
        return false;
      }
      if pos == oldLen - 1 {
        var _ := Pop();
        return true;
      }
      var data := slots;
      var oldCap := data.Length();
      var newLen := oldLen - 1;
      if oldLen <= oldCap / 2 && oldLen >= 16 {
        var shrunk := ShrinkForRemove(data, oldLen, pos);
        slots := shrunk;
        assert shrunk.data[newLen..] == [Filler];
        assert shrunk.data[..newLen] == Removed(old(Elements()), pos);
      } else {
        ghost var tail := data.data[oldLen..];
        ShiftRemove(data.data, oldLen, pos);
        assert data.data[newLen..] == [Filler] + tail;
      }
      length := newLen;
      ok := true;
    }
  }

  /**
   * The index rule of `zis_array_obj_Mx_get_element`, `set_element` and
   * `remove_element`: 1-based from the front for positive indices, from the
   * back for negative ones, and 0 or out of range gives nothing.
   */
  function MxIndex(idx: int, len: nat): Option<nat> {
    if idx > 0 then
      if idx - 1 >= len then None else Some(idx - 1)
    else if idx == 0 then None
    else
      var j := len + idx;
      if j < 0 || j >= len then None else Some(j)
  }

  /** Positions 1..len and -len..-1 are valid, and they name element `i - 1` and `len + i`. */
  lemma MxIndexSpec(idx: int, len: nat)
    ensures MxIndex(idx, len).Some? <==> (1 <= idx <= len || -(len as int) <= idx <= -1)
    ensures MxIndex(idx, len).Some? ==>
              MxIndex(idx, len).value < len &&
              MxIndex(idx, len).value as int == (if idx > 0 then idx - 1 else len + idx)
  {
  }

  /**
   * The index rule of `zis_array_obj_Mx_insert_element`: 1..len+1 from the
   * front and -(len+1)..-1 from the back, so -1 is the end.
   */
  function MxInsertIndex(idx: int, len: nat): Option<nat> {
    if idx > 0 then
      if idx - 1 > len then None else Some(idx - 1)
    else if idx == 0 then None
    else
      var j := len + 1 + idx;
      if j < 0 || j > len then None else Some(j)
  }

  lemma MxInsertIndexSpec(idx: int, len: nat)
    ensures MxInsertIndex(idx, len).Some? <==> (1 <= idx <= len + 1 || -(len as int) - 1 <= idx <= -1)
    ensures MxInsertIndex(idx, len).Some? ==>
              MxInsertIndex(idx, len).value <= len &&
              MxInsertIndex(idx, len).value as int == (if idx > 0 then idx - 1 else len + 1 + idx)
    ensures MxInsertIndex(-1, len) == Some(len) && MxInsertIndex(1, len) == Some(0)
  {
  }

  /** `zis_array_obj_Mx_get_element`: a non-small-int index gives nothing. */
  function MxGetElement(self: Array, index: Value): (r: Option<Value>)
    requires self.Valid()
    reads self, self.slots, self.slots.data
    ensures r.Some? <==> index.Small? && MxIndex(index.v, self.length).Some?
    ensures r.Some? ==> r.value == self.Elements()[MxIndex(index.v, self.length).value]
  {
    if index.Small? then
      match MxIndex(index.v, self.length)
      case Some(i) => Some(self.slots.Get(i))
      case None => None
    else None
  }

  /** `zis_array_obj_Mx_set_element`: stores `value` at the element the index names, if any. */
  method MxSetElement(self: Array, index: Value, value: Value) returns (ok: bool)
    requires self.Valid()
    modifies self.slots.data
    ensures self.Valid() && self.slots == old(self.slots) && self.length == old(self.length)
    ensures ok <==> index.Small? && MxIndex(index.v, old(self.length)).Some?
    ensures self.Elements() ==
              if ok then old(self.Elements())[MxIndex(index.v, old(self.length)).value := value]
              else old(self.Elements())
  {
    if !index.Small? {
      return false;
    }
    var i := MxIndex(index.v, self.length);
    if i.None? {
      return false;
    }
    ok := self.SetChecked(i.value, value);
  }

  /** `zis_array_obj_Mx_insert_element`: inserts `value` where the index says, if valid. */
  method MxInsertElement(self: Array, index: Value, value: Value, empty: Slots) returns (ok: bool)
    requires self.Valid() && IsEmptySlots(empty)
    modifies self, self.slots.data
    ensures self.Valid()
    ensures ok <==> index.Small? && MxInsertIndex(index.v, old(self.length)).Some?
    ensures ok ==> self.Elements() == Inserted(old(self.Elements()), MxInsertIndex(index.v, old(self.length)).value, value)
    ensures !ok ==> self.Elements() == old(self.Elements())
  {
    if !index.Small? {
      return false;
    }
    var i := MxInsertIndex(index.v, self.length);
    if i.None? {
      return false;
    }
    ok := self.Insert(i.value, value, empty);
  }

  /**
   * `zis_array_obj_Mx_remove_element`: removes the element the index
   * names, if any; -1 pops the last element.
   */
  method MxRemoveElement(self: Array, index: Value) returns (ok: bool)
    requires self.Valid()
    modifies self, self.slots.data
    ensures self.Valid()
    ensures ok <==> index.Small? && MxIndex(index.v, old(self.length)).Some?
    ensures ok ==> self.Elements() == Removed(old(self.Elements()), MxIndex(index.v, old(self.length)).value)
    ensures !ok ==> self.Elements() == old(self.Elements())
  {
    if !index.Small? {
      return false;
    }
    var idx := index.v;
    if idx == -1 {
      var r := self.Pop();
      assert r.Some? ==> self.Elements() == Removed(old(self.Elements()), MxIndex(idx, old(self.length)).value);
      return r.Some?;
    }
    var i := MxIndex(idx, self.length);
    if i.None? {
      return false;
    }
    ok := self.Remove(i.value);
  }
}
