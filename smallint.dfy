/**
 * Small integers: integers held directly in an object-pointer word.  A word
 * whose least significant bit is 1 is a small int whose value is the word,
 * read as `intptr_t`, shifted right arithmetically by one bit.
 */
module SmallInt {
  import opened Words

  /** ZIS_SMALLINT_MIN = INTPTR_MIN >> 1. */
  function Min(w: Width): (r: int)
    ensures 4 * r == -Modulus(w)
  {
    -Half(w) / 2
  }

  /** ZIS_SMALLINT_MAX = INTPTR_MAX >> 1. */
  function Max(w: Width): (r: int)
    ensures 4 * (r + 1) == Modulus(w)
  {
    (Half(w) - 1) / 2
  }

  predicate InRange(w: Width, v: int) {
    Min(w) <= v <= Max(w)
  }

  /** `zis_object_is_smallint`: the pointer word has its low bit set. */
  predicate IsSmallInt(p: nat) {
    p % 2 == 1
  }

  /**
   * `zis_smallint_from_ptr`: the pointer word read as `intptr_t`, shifted right
   * arithmetically by one (Dafny's division by 2 floors, as an arithmetic shift does).
   */
  function FromPtr(w: Width, p: nat): (v: int)
    requires IsUWord(w, p) && IsSmallInt(p)
    ensures InRange(w, v)
    ensures 2 * v + 1 == ToSigned(w, p)
  {
    SignedNear(w, p);
    ToSigned(w, p) / 2
  }

  /** The word `(val << 1) | 1`, computed modulo 2^W as the machine does. */
  function TagWord(w: Width, val: int): (p: nat)
    requires IsSWord(w, val)
    ensures IsUWord(w, p) && IsSmallInt(p)
  {
    ToUnsigned(w, 2 * val + 1)
  }

  /** `zis_smallint_to_ptr`: callers only pass values in the small-int range (the source asserts the round trip). */
  function ToPtr(w: Width, val: int): (p: nat)
    requires InRange(w, val)
    ensures IsUWord(w, p) && IsSmallInt(p)
    ensures FromPtr(w, p) == val
  {
    RoundTripIff(w, val);
    TagWord(w, val)
  }

  /** `zis_smallint_try_to_ptr`: the tagged word when it converts back to `val`, otherwise NULL (0). */
  function TryToPtr(w: Width, val: int): (p: nat)
    requires IsSWord(w, val)
    ensures p != 0 <==> InRange(w, val)
    ensures p != 0 ==> p == ToPtr(w, val)
  {
    var q := TagWord(w, val);
    RoundTripIff(w, val);
    if FromPtr(w, q) == val then q else 0
  }

  /** The tagged word converts back to `val` exactly when `val` is in the small-int range. */
  lemma RoundTripIff(w: Width, val: int)
    requires IsSWord(w, val)
    ensures FromPtr(w, TagWord(w, val)) == val <==> InRange(w, val)
  {
    var t := 2 * val + 1;
    UnsignedNear(w, t);
    SignedNear(w, TagWord(w, val));
  }

  /** `zis_smallint_hash`: the bits of the signed value read as `size_t`. */
  function Hash(w: Width, val: int): (h: nat)
    requires IsSWord(w, val)
    ensures IsUWord(w, h)
  {
    ToUnsigned(w, val)
  }

  /** Every tagged word comes from exactly one small int. */
  lemma FromPtrToPtr(w: Width, p: nat)
    requires IsUWord(w, p) && IsSmallInt(p)
    ensures ToPtr(w, FromPtr(w, p)) == p
  {
    assert 2 * FromPtr(w, p) + 1 == ToSigned(w, p);
    UnsignedSignedInverse(w, p);
  }

  /** Distinct small ints have distinct tagged words. */
  lemma ToPtrInjective(w: Width, a: int, b: int)
    requires InRange(w, a) && InRange(w, b) && ToPtr(w, a) == ToPtr(w, b)
    ensures a == b
  {
    assert FromPtr(w, ToPtr(w, a)) == a;
  }

  /** The hash is a bit-for-bit reinterpretation, so distinct values hash differently. */
  lemma HashInjective(w: Width, a: int, b: int)
    requires IsSWord(w, a) && IsSWord(w, b) && Hash(w, a) == Hash(w, b)
    ensures a == b
  {
    SignedUnsignedInverse(w, a);
    SignedUnsignedInverse(w, b);
  }
}
