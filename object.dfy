/**
 * The generic object operations of `src/core/object.c` that do not call
 * into the virtual machine: the small-int fast paths of comparison and
 * equality, and the conversion of user-visible element indices (1-based
 * from the front, negative from the back) and index ranges into offsets.
 *
 * An offset is a `size_t`; the failure value `(size_t)-1` is `None`.
 */
module Object {
  import opened Words
  import opened Wrappers
  import SmallInt

  /* ----- comparison and equality ----------------------------------------- */

  /**
   * An object reference: a small int, or a heap object identified by an
   * address-like identity, which may be a Symbol.  Two references are the
   * same pointer exactly when they are equal values (for small ints this is
   * `SmallInt.ToPtrInjective`).
   */
  datatype Obj = Small(v: int) | Heap(id: nat, isSymbol: bool)

  /** `enum zis_object_ordering`; `IC` is "incomparable or failed". */
  datatype Ordering = LT | EQ | GT | IC

  /**
   * `zis_object_compare` up to the point where it invokes the `<=>` method:
   * the same object compares EQ, two small ints compare by value; `None`
   * means the comparison is delegated to a method call.
   */
  function CompareFast(lhs: Obj, rhs: Obj): (r: Option<Ordering>)
    ensures r.Some? <==> lhs == rhs || (lhs.Small? && rhs.Small?)
    ensures r == Some(EQ) <==> lhs == rhs
    ensures r == Some(LT) <==> lhs.Small? && rhs.Small? && lhs.v < rhs.v
    ensures r == Some(GT) <==> lhs.Small? && rhs.Small? && lhs.v > rhs.v
  {
    if lhs == rhs then Some(EQ)
    else if lhs.Small? && rhs.Small? then
      if lhs.v < rhs.v then Some(LT) else Some(GT)
    else None
  }

  /** Swapping the operands of a fast comparison mirrors its result. */
  lemma CompareFastAntisymmetric(a: Obj, b: Obj)
    ensures CompareFast(a, b) == Some(LT) <==> CompareFast(b, a) == Some(GT)
    ensures CompareFast(a, b) == Some(EQ) <==> CompareFast(b, a) == Some(EQ)
  {
  }

  /** Fast comparison of small ints is transitive. */
  lemma CompareFastTransitive(a: Obj, b: Obj, c: Obj)
    requires CompareFast(a, b) == Some(LT) && CompareFast(b, c) == Some(LT)
    ensures CompareFast(a, c) == Some(LT)
  {
  }

  /**
   * `zis_object_equals` up to the point where it invokes `==`: true for the
   * same object, false when both operands are small ints or Symbols (these
   * are equal only when identical); `None` means a method decides.
   */
  function EqualsFast(lhs: Obj, rhs: Obj): (r: Option<bool>)
    ensures r == Some(true) <==> lhs == rhs
    ensures r == Some(false) <==> lhs != rhs && (lhs.Small? || lhs.isSymbol) && (rhs.Small? || rhs.isSymbol)
  {
    if lhs == rhs then Some(true)
    else if (lhs.Small? || lhs.isSymbol) && (rhs.Small? || rhs.isSymbol) then Some(false)
    else None
  }

  /** For two small ints the fast paths decide, and they agree with each other and with the values. */
  lemma SmallIntsDecided(a: int, b: int)
    ensures EqualsFast(Small(a), Small(b)) == Some(a == b)
    ensures CompareFast(Small(a), Small(b)) == Some(if a < b then LT else if a == b then EQ else GT)
  {
  }

  /* ----- index conversion ------------------------------------------------ */

  /**
   * `zis_object_index_convert(length, index)`: a 1-based index 1..length
   * selects offset index - 1; anything else goes to the slow path.  (The
   * inline fast path lives in a header that is not part of this model; its
   * behaviour is the one the slow path's entry assertion describes.)
   */
  function IndexConvert(w: Width, length: nat, index: int): (r: Option<nat>)
    requires length <= SmallInt.Max(w) && IsSWord(w, index)
  {
    if 0 < index <= length then Some(index - 1) else IndexConvertSlow(w, length, index)
  }

  /**
   * `_zis_object_index_convert_slow`: a non-negative index is out of range
   * (0, or past the end); a negative one counts from the end and must land
   * in [0, length).
   */
  function IndexConvertSlow(w: Width, length: nat, index: int): (r: Option<nat>)
    requires length <= SmallInt.Max(w) && IsSWord(w, index)
    requires index <= 0 || index > length
  {
    if index >= 0 then None
    else
      var i := index + length;
      if i < 0 then None else Some(i)
  }

  /**
   * Index conversion succeeds exactly for 1..length and -length..-1; the
   * offset counts from the front for positive indices and from the back for
   * negative ones, and lies in [0, length).
   */
  lemma IndexConvertSpec(w: Width, length: nat, index: int)
    requires length <= SmallInt.Max(w) && IsSWord(w, index)
    ensures IndexConvert(w, length, index).Some? <==> 1 <= index <= length || -(length as int) <= index <= -1
    ensures IndexConvert(w, length, index).Some? ==>
              IndexConvert(w, length, index).value < length &&
              IndexConvert(w, length, index).value as int == (if index > 0 then index - 1 else length + index)
  {
  }

  /** Index 0 never converts: it names no element. */
  lemma IndexZeroInvalid(w: Width, length: nat)
    requires length <= SmallInt.Max(w)
    ensures IndexConvert(w, length, 0).None?
  {
  }

  /** The positive and the negative index of the same element convert to the same offset. */
  lemma IndexFrontBackAgree(w: Width, length: nat, offset: nat)
    requires length <= SmallInt.Max(w) && offset < length
    ensures IsSWord(w, offset + 1) && IsSWord(w, offset as int - length)
    ensures IndexConvert(w, length, offset + 1) == IndexConvert(w, length, offset as int - length) == Some(offset)
  {
  }

  /**
   * `zis_object_index_convert((zis_smallint_unsigned_t)-1, index)`: the
   * conversion against the largest unsigned length, as the raw `size_t`
   * result.  A positive index takes the fast path; 0 is `(size_t)-1`; a
   * negative index adds `(zis_smallint_t)-1`, i.e. subtracts one, and the
   * difference is read as unsigned.
   */
  function ConvertAgainstMax(w: Width, index: int): (r: nat)
    requires IsSWord(w, index)
    ensures IsUWord(w, r)
  {
    if index > 0 then index - 1
    else if index == 0 then Modulus(w) - 1
    else ToUnsigned(w, index - 1)
  }

  /** The result of a range conversion: an offset and an element count. */
  datatype Span = Span(offset: nat, count: nat)

  /**
   * `zis_object_index_range_convert` AS WRITTEN.  The range is inclusive
   * (`begin..end`).  When the converted end fails or precedes the converted
   * begin, the condition at line 224 parses as
   * `end != -1 ? end : (convert(MAX, end_index) == begin - 1)`: with a valid
   * end the test is merely `end != 0`.
   */
  function RangeConvert(w: Width, length: nat, beginIndex: int, endIndex: int): (r: Option<Span>)
    requires length <= SmallInt.Max(w) && IsSWord(w, beginIndex) && IsSWord(w, endIndex)
  {
    var begin := IndexConvert(w, length, beginIndex);
    if begin.None? then None
    else
      var b := begin.value;
      var end := IndexConvert(w, length, endIndex);
      if end.None? || b > end.value then
        var emptyOk :=
          if end.Some? then end.value != 0
          else ConvertAgainstMax(w, endIndex) == ToUnsigned(w, b - 1);
        if emptyOk then Some(Span(b, 0)) else None
      else Some(Span(b, end.value - b + 1))
  }

  /**
   * The range conversion as its authors evidently meant line 224:
   * `(end != -1 ? end : convert(MAX, end_index)) == begin - 1`, so a
   * reversed range is accepted as empty only when its end stops just
   * before its begin.
   */
  function RangeConvertIntended(w: Width, length: nat, beginIndex: int, endIndex: int): (r: Option<Span>)
    requires length <= SmallInt.Max(w) && IsSWord(w, beginIndex) && IsSWord(w, endIndex)
  {
    var begin := IndexConvert(w, length, beginIndex);
    if begin.None? then None
    else
      var b := begin.value;
      var end := IndexConvert(w, length, endIndex);
      if end.None? || b > end.value then
        var e := if end.Some? then end.value else ConvertAgainstMax(w, endIndex);
        if e == ToUnsigned(w, b - 1) then Some(Span(b, 0)) else None
      else Some(Span(b, end.value - b + 1))
  }

  /**
   * When the end index is out of range, the comparison against the widest
   * conversion holds only for end index 0 with begin offset 0.
   */
  lemma AgainstMaxOnlyAtZero(w: Width, length: nat, b: nat, endIndex: int)
    requires length <= SmallInt.Max(w) && IsSWord(w, endIndex) && b < length
    requires IndexConvert(w, length, endIndex).None?
    ensures ConvertAgainstMax(w, endIndex) == ToUnsigned(w, b - 1) <==> endIndex == 0 && b == 0
  {
    var m := Modulus(w);
    if b == 0 {
      UnsignedNear(w, -1);
    } else {
      UnsignedNear(w, b - 1);
    }
    if endIndex < 0 {
      UnsignedNear(w, endIndex - 1);
    }
  }

  /** A valid inclusive range maps to its first offset and its element count, within the sequence. */
  lemma RangeConvertForward(w: Width, length: nat, beginIndex: int, endIndex: int)
    requires length <= SmallInt.Max(w) && IsSWord(w, beginIndex) && IsSWord(w, endIndex)
    requires IndexConvert(w, length, beginIndex).Some? && IndexConvert(w, length, endIndex).Some?
    requires IndexConvert(w, length, beginIndex).value <= IndexConvert(w, length, endIndex).value
    ensures RangeConvert(w, length, beginIndex, endIndex) == RangeConvertIntended(w, length, beginIndex, endIndex)
    ensures var r := RangeConvert(w, length, beginIndex, endIndex);
            r.Some? && r.value.offset == IndexConvert(w, length, beginIndex).value &&
            r.value.offset + r.value.count == IndexConvert(w, length, endIndex).value + 1 &&
            r.value.offset + r.value.count <= length
  {
    IndexConvertSpec(w, length, endIndex);
  }

  /**
   * The intended conversion: it succeeds exactly for a valid begin with a
   * valid end at or after it, or an end just before it (at offset b - 1, or
   * end index 0 when b is 0); the result always lies within the sequence.
   */
  lemma RangeConvertIntendedSpec(w: Width, length: nat, beginIndex: int, endIndex: int)
    requires length <= SmallInt.Max(w) && IsSWord(w, beginIndex) && IsSWord(w, endIndex)
    ensures var r := RangeConvertIntended(w, length, beginIndex, endIndex);
            var begin := IndexConvert(w, length, beginIndex);
            var end := IndexConvert(w, length, endIndex);
            (r.Some? <==>
               (begin.Some? &&
                ((end.Some? && begin.value <= end.value + 1) || (end.None? && endIndex == 0 && begin.value == 0)))) &&
            (r.Some? ==> r.value.offset == begin.value && r.value.offset + r.value.count <= length)
  {
    var begin := IndexConvert(w, length, beginIndex);
    var end := IndexConvert(w, length, endIndex);
    IndexConvertSpec(w, length, beginIndex);
    IndexConvertSpec(w, length, endIndex);
    if begin.Some? {
      var b := begin.value;
      if end.None? {
        AgainstMaxOnlyAtZero(w, length, b, endIndex);
      } else if b > end.value {
        if b == 0 {
          UnsignedNear(w, -1);
        } else {
          UnsignedNear(w, b - 1);
        }
      }
    }
  }

  /**
   * As written, a valid end that precedes the begin by more than one still
   * gives an empty range: on a length-10 sequence, range -1..2 (offsets 9
   * and 1) converts to offset 9, count 0, where the intended test rejects it.
   */
  lemma RangeConvertAsWrittenAcceptsReversed()
    ensures RangeConvert(64, 10, -1, 2) == Some(Span(9, 0))
    ensures RangeConvertIntended(64, 10, -1, 2) == None
  {
    UnsignedNear(64, 8);
  }

  /**
   * As written, range 2..1 (offsets 1 and 0), the empty range just before
   * the second element, is rejected because its end offset is 0; the
   * intended test accepts it as empty.
   */
  lemma RangeConvertAsWrittenRejectsEmptyAtOne()
    ensures RangeConvert(64, 10, 2, 1) == None
    ensures RangeConvertIntended(64, 10, 2, 1) == Some(Span(1, 0))
  {
    UnsignedNear(64, 0);
  }
}
