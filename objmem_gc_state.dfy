/**
 * Generation tests on the GC state kept in the two low bits of a header's
 * `_1` word, the write barrier that records old-to-young references, and the
 * reference fix-ups the collector applies to strong and weak references.
 *
 * Objects are named by their (aligned) address; `Heap` gives each live
 * object's header words.  A reference word with its low bit set is a small
 * int and has no header.
 */
module ObjmemGcState {
  import opened ObjectMeta

  /** `enum zis_objmem_obj_state`. */
  const NEW: Word := 0
  const MID: Word := 1
  const OLD: Word := 2
  const BIG: Word := 3

  datatype Header = Header(w1: Word, w2: Word)

  type Heap = map<Word, Header>

  /** `zis_object_meta_is_not_young`: bit 1 of the GC state. */
  predicate IsNotYoung(w1: Word) {
    GcStateBit1(w1) != 0
  }

  /** `zis_object_meta_is_young`. */
  predicate IsYoung(w1: Word) {
    !IsNotYoung(w1)
  }

  /** `zis_object_meta_young_is_not_new`: bit 0, asked of a young object only. */
  predicate YoungIsNotNew(w1: Word)
    requires IsYoung(w1)
  {
    GcStateBit0(w1) != 0
  }

  /** `zis_object_meta_young_is_new`. */
  predicate YoungIsNew(w1: Word)
    requires IsYoung(w1)
  {
    !YoungIsNotNew(w1)
  }

  /** `zis_object_meta_old_is_big`: bit 0, asked of an old object only. */
  predicate OldIsBig(w1: Word)
    requires IsNotYoung(w1)
  {
    GcStateBit0(w1) != 0
  }

  /** `zis_object_meta_old_is_not_big`. */
  predicate OldIsNotBig(w1: Word)
    requires IsNotYoung(w1)
  {
    !OldIsBig(w1)
  }

  /** NEW and MID are the young states, OLD and BIG the others. */
  lemma YoungIffNewOrMid(w1: Word)
    ensures IsYoung(w1) <==> (GcStateOf(w1) == NEW || GcStateOf(w1) == MID)
  {
    assert (w1 & 2 == 0) <==> (w1 & 3 == 0 || w1 & 3 == 1);
  }

  /** Among young objects NEW is the one with bit 0 clear. */
  lemma YoungNewIffState(w1: Word)
    requires IsYoung(w1)
    ensures YoungIsNew(w1) <==> GcStateOf(w1) == NEW
  {
    assert w1 & 2 == 0 ==> ((w1 & 1 == 0) <==> (w1 & 3 == 0));
  }

  /** Among old objects BIG is the one with bit 0 set. */
  lemma OldBigIffState(w1: Word)
    requires IsNotYoung(w1)
    ensures OldIsBig(w1) <==> GcStateOf(w1) == BIG
  {
    assert w1 & 2 != 0 ==> ((w1 & 1 != 0) <==> (w1 & 3 == 3));
  }

  /** Whether a reference word is a small int (`zis_object_is_smallint`). */
  predicate IsSmallIntRef(r: Word) {
    r & 1 != 0
  }

  /**
   * The decision of `zis_object_write_barrier(obj, val)`: record `obj` when it
   * is not young and `val` is a young heap object.
   */
  predicate BarrierRecords(heap: Heap, obj: Word, val: Word)
    requires obj in heap
    requires !IsSmallIntRef(val) ==> val in heap
  {
    if IsYoung(heap[obj].w1) then false
    else if IsSmallIntRef(val) || IsNotYoung(heap[val].w1) then false
    else true
  }

  /** The old objects recorded by `zis_objmem_record_o2y_ref`, in call order. */
  class O2yRecorder {
    var recorded: seq<Word>

    /** `zis_object_write_barrier(obj, val)`. */
    method WriteBarrier(heap: Heap, obj: Word, val: Word)
      requires obj in heap
      requires !IsSmallIntRef(val) ==> val in heap
      modifies this
      ensures recorded == old(recorded) + (if BarrierRecords(heap, obj, val) then [obj] else [])
      ensures |recorded| > |old(recorded)| <==>
                !IsYoung(heap[obj].w1) && !IsSmallIntRef(val) && IsYoung(heap[val].w1)
    {
      if IsYoung(heap[obj].w1) {
        return;
      }
      if IsSmallIntRef(val) || IsNotYoung(heap[val].w1) {
        return;
      }
      recorded := recorded + [obj];
    }
  }

  /** A variable holding an object reference, updated in place by the GC macros. */
  class RefVar {
    var obj: Word

    /** `_zis_objmem_move_object_`: a marked object has moved to its GC pointer. */
    method MoveObject(heap: Heap)
      requires obj in heap
      modifies this
      ensures GcMarked(old(heap[obj].w2)) ==> obj == GcPtrOf(heap[old(obj)].w2)
      ensures !GcMarked(old(heap[obj].w2)) ==> obj == old(obj)
    {
      if !GcMarked(heap[obj].w2) {
        return;
      }
      obj := GcPtrOf(heap[obj].w2);
    }
  }

  /** `enum zis_objmem_weak_ref_visit_op`. */
  datatype WeakRefVisitOp = Fini | FiniY | Move

  /** The references handed to `WEAK_REF_FINI()`, in call order. */
  class Finalizer {
    var finalized: seq<Word>

    /** `zis_objmem_visit_weak_ref(ref, op)`. */
    method VisitWeakRef(ref: RefVar, heap: Heap, op: WeakRefVisitOp)
      requires ref.obj in heap && !IsSmallIntRef(ref.obj)
      modifies this, ref
      ensures op != Move ==> ref.obj == old(ref.obj)
      ensures op == Move ==> finalized == old(finalized)
      ensures op == Move && GcMarked(heap[old(ref.obj)].w2) ==> ref.obj == GcPtrOf(heap[old(ref.obj)].w2)
      ensures op == Move && !GcMarked(heap[old(ref.obj)].w2) ==> ref.obj == old(ref.obj)
      ensures op == Fini ==>
                finalized == old(finalized) + (if GcMarked(heap[ref.obj].w2) then [] else [ref.obj])
      ensures op == FiniY ==>
                finalized == old(finalized) +
                  (if IsNotYoung(heap[ref.obj].w1) || GcMarked(heap[ref.obj].w2) then [] else [ref.obj])
    {
      if op != Move {
        if op == FiniY && IsNotYoung(heap[ref.obj].w1) {
          return;
        }
        if !GcMarked(heap[ref.obj].w2) {
          finalized := finalized + [ref.obj];
        }
      } else {
        ref.MoveObject(heap);
      }
    }
  }
}
