/**
 * The two-word object header (`struct zis_object_meta`) on a 64-bit target.
 *
 *   _1 = TYPE_PTR | GC_STATE      (GC_STATE in bits 1..0)
 *   _2 = GC_PTR   | GC_MARK       (GC_MARK in bit 0, bit 1 unused)
 *
 * The getters are masks on the words; `Meta` is the header itself, whose
 * init and set macros rewrite `_1` and `_2` in place.
 */
module ObjectMeta {

  type Word = bv64

  /** Pointer size in bytes. */
  const PtrSize: nat := 8

  /** `zis_object_meta_assert_ptr_fits`: a pointer that leaves the two low bits free. */
  predicate PtrFits(p: Word) {
    p & 3 == 0
  }

  /** `zis_object_meta_get_type_ptr`: `_1` without its two low bits. */
  function TypePtrOf(w1: Word): Word {
    w1 & !3
  }

  /** `zis_object_meta_get_gc_ptr`: `_2` without its two low bits. */
  function GcPtrOf(w2: Word): Word {
    w2 & !3
  }

  /** `zis_object_meta_get_gc_state`: the two low bits of `_1`. */
  function GcStateOf(w1: Word): (s: Word)
    ensures s < 4
  {
    w1 & 3
  }

  /** `zis_object_meta_get_gc_state_bit0`. */
  function GcStateBit0(w1: Word): (b: Word)
    ensures b == 0 || b == 1
  {
    w1 & 1
  }

  /** `zis_object_meta_get_gc_state_bit1`. */
  function GcStateBit1(w1: Word): (b: Word)
    ensures b == 0 || b == 2
  {
    w1 & 2
  }

  /** `zis_object_meta_test_gc_mark`: bit 0 of `_2`. */
  predicate GcMarked(w2: Word) {
    w2 & 1 != 0
  }

  /** Pointers read back from the header always fit: their two low bits are clear. */
  lemma TypePtrFits(w1: Word)
    ensures PtrFits(TypePtrOf(w1))
  {
    assert (w1 & !3) & 3 == 0;
  }

  lemma GcPtrFits(w2: Word)
    ensures PtrFits(GcPtrOf(w2))
  {
    assert (w2 & !3) & 3 == 0;
  }

  /** `_1` is its type pointer and GC state side by side, with no bit shared. */
  lemma HeaderSplit(w1: Word)
    ensures TypePtrOf(w1) | GcStateOf(w1) == w1
  {
    assert (w1 & !3) | (w1 & 3) == w1;
  }

  lemma HeaderDisjoint(w1: Word)
    ensures TypePtrOf(w1) & GcStateOf(w1) == 0
  {
    assert (w1 & !3) & (w1 & 3) == 0;
  }

  /** The two bit getters are the two bits of the GC state. */
  lemma GcStateBits(w1: Word)
    ensures GcStateOf(w1) == GcStateBit1(w1) | GcStateBit0(w1)
  {
    assert w1 & 3 == (w1 & 2) | (w1 & 1);
  }

  /* The words the init and set macros store (the bit-vector facts are kept one per lemma). */

  /** The `_1` of `zis_object_meta_init`. */
  function InitWord1(gcState: Word, typePtr: Word): Word {
    typePtr | gcState
  }

  /** The `_1` after `zis_object_meta_set_type_ptr`. */
  function WithTypePtr(w1: Word, p: Word): Word {
    p | (w1 & 3)
  }

  /** The `_2` after `zis_object_meta_set_gc_ptr`. */
  function WithGcPtr(w2: Word, p: Word): Word {
    p | (w2 & 3)
  }

  /** The `_1` after `zis_object_meta_set_gc_state`. */
  function WithGcState(w1: Word, s: Word): Word {
    s | (w1 & !3)
  }

  /** The `_2` after `zis_object_meta_set_gc_mark`. */
  function WithMark(w2: Word): Word {
    w2 | 1
  }

  /** The `_2` after `zis_object_meta_reset_gc_mark`. */
  function WithoutMark(w2: Word): Word {
    w2 & !1
  }

  lemma InitTypePtr(gcState: Word, typePtr: Word)
    requires PtrFits(typePtr) && gcState < 4
    ensures TypePtrOf(InitWord1(gcState, typePtr)) == typePtr
  {
    assert (typePtr | gcState) & !3 == typePtr;
  }

  lemma InitGcState(gcState: Word, typePtr: Word)
    requires PtrFits(typePtr) && gcState < 4
    ensures GcStateOf(InitWord1(gcState, typePtr)) == gcState
  {
    assert (typePtr | gcState) & 3 == gcState;
  }

  lemma SetTypePtrGet(w1: Word, p: Word)
    requires PtrFits(p)
    ensures TypePtrOf(WithTypePtr(w1, p)) == p
  {
    assert (p | (w1 & 3)) & !3 == p;
  }

  lemma SetTypePtrKeepsState(w1: Word, p: Word)
    requires PtrFits(p)
    ensures GcStateOf(WithTypePtr(w1, p)) == GcStateOf(w1)
  {
    assert (p | (w1 & 3)) & 3 == w1 & 3;
  }

  lemma SetGcPtrGet(w2: Word, p: Word)
    requires PtrFits(p)
    ensures GcPtrOf(WithGcPtr(w2, p)) == p
  {
    assert (p | (w2 & 3)) & !3 == p;
  }

  lemma SetGcPtrKeepsLow(w2: Word, p: Word)
    requires PtrFits(p)
    ensures WithGcPtr(w2, p) & 3 == w2 & 3
  {
    assert (p | (w2 & 3)) & 3 == w2 & 3;
  }

  lemma SetGcStateGet(w1: Word, s: Word)
    requires s < 4
    ensures GcStateOf(WithGcState(w1, s)) == s
  {
    assert (s | (w1 & !3)) & 3 == s;
  }

  lemma SetGcStateKeepsType(w1: Word, s: Word)
    requires s < 4
    ensures TypePtrOf(WithGcState(w1, s)) == TypePtrOf(w1)
  {
    assert (s | (w1 & !3)) & !3 == w1 & !3;
  }

  lemma MarkSets(w2: Word)
    ensures GcMarked(WithMark(w2))
  {
    assert (w2 | 1) & 1 != 0;
  }

  lemma MarkKeepsGcPtr(w2: Word)
    ensures GcPtrOf(WithMark(w2)) == GcPtrOf(w2)
  {
    assert (w2 | 1) & !3 == w2 & !3;
  }

  lemma UnmarkClears(w2: Word)
    ensures !GcMarked(WithoutMark(w2))
  {
    assert (w2 & !1) & 1 == 0;
  }

  lemma UnmarkKeepsGcPtr(w2: Word)
    ensures GcPtrOf(WithoutMark(w2)) == GcPtrOf(w2)
  {
    assert (w2 & !1) & !3 == w2 & !3;
  }

  /** `zis_object_ref_bytes(obj, n)`: BYTES start `n` pointer-sized slots into the body. */
  function RefBytes(body: nat, slotCount: nat): (b: nat)
    ensures b - body == PtrSize * slotCount
    ensures forall i :: 0 <= i < slotCount ==> body + PtrSize * i + PtrSize <= b
  {
    body + PtrSize * slotCount
  }

  /** The object header, updated in place by the `zis_object_meta_*` macros. */
  class Meta {
    var w1: Word
    var w2: Word

    /** `zis_object_meta_init(meta, gc_state, gc_ptr, type_ptr)`. */
    method Init(gcState: Word, gcPtr: Word, typePtr: Word)
      requires PtrFits(typePtr) && gcState < 4
      modifies this
      ensures w1 == InitWord1(gcState, typePtr) && w2 == gcPtr
      ensures TypePtrOf(w1) == typePtr && GcStateOf(w1) == gcState
    {
      InitTypePtr(gcState, typePtr);
      InitGcState(gcState, typePtr);
      w1 := InitWord1(gcState, typePtr);
      w2 := gcPtr;
    }

    /** `zis_object_meta_set_type_ptr`: new high bits of `_1`, same GC state, `_2` untouched. */
    method SetTypePtr(p: Word)
      requires PtrFits(p)
      modifies this
      ensures w1 == WithTypePtr(old(w1), p) && w2 == old(w2)
      ensures TypePtrOf(w1) == p && GcStateOf(w1) == GcStateOf(old(w1))
    {
      SetTypePtrGet(w1, p);
      SetTypePtrKeepsState(w1, p);
      w1 := WithTypePtr(w1, p);
    }

    /** `zis_object_meta_set_gc_ptr`: new high bits of `_2`, same mark bit (and bit 1), `_1` untouched. */
    method SetGcPtr(p: Word)
      requires PtrFits(p)
      modifies this
      ensures w2 == WithGcPtr(old(w2), p) && w1 == old(w1)
      ensures GcPtrOf(w2) == p && w2 & 3 == old(w2) & 3
    {
      SetGcPtrGet(w2, p);
      SetGcPtrKeepsLow(w2, p);
      w2 := WithGcPtr(w2, p);
    }

    /** `zis_object_meta_set_gc_state`: new low bits of `_1`, same type pointer, `_2` untouched. */
    method SetGcState(s: Word)
      requires s < 4
      modifies this
      ensures w1 == WithGcState(old(w1), s) && w2 == old(w2)
      ensures GcStateOf(w1) == s && TypePtrOf(w1) == TypePtrOf(old(w1))
    {
      SetGcStateGet(w1, s);
      SetGcStateKeepsType(w1, s);
      w1 := WithGcState(w1, s);
    }

    /** `zis_object_meta_set_gc_mark`: sets bit 0 of `_2` only. */
    method SetGcMark()
      modifies this
      ensures w2 == WithMark(old(w2)) && w1 == old(w1)
      ensures GcMarked(w2) && GcPtrOf(w2) == GcPtrOf(old(w2))
    {
      MarkSets(w2);
      MarkKeepsGcPtr(w2);
      w2 := WithMark(w2);
    }

    /** `zis_object_meta_reset_gc_mark`: clears bit 0 of `_2` only. */
    method ResetGcMark()
      modifies this
      ensures w2 == WithoutMark(old(w2)) && w1 == old(w1)
      ensures !GcMarked(w2) && GcPtrOf(w2) == GcPtrOf(old(w2))
    {
      UnmarkClears(w2);
      UnmarkKeepsGcPtr(w2);
      w2 := WithoutMark(w2);
    }
  }
}
