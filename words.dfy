/**
 * Machine words of the runtime's target: `uintptr_t`/`size_t` and
 * `intptr_t`, of width 32 or 64 bits depending on the platform.
 * Unsigned words are naturals below 2^W, signed words are integers in
 * [-2^(W-1), 2^(W-1)) and the two are related by two's complement.
 */
module Words {

  /** Width in bits of a pointer-sized word. */
  type Width = w: nat | w == 32 || w == 64 witness 64

  /** 2^W. */
  function Modulus(w: Width): (m: int)
    ensures m > 4
  {
    if w == 32 then 0x1_0000_0000 else 0x1_0000_0000_0000_0000
  }

  /** 2^(W-1): the magnitude of the most negative signed word. */
  function Half(w: Width): (h: int)
    ensures h > 2 && 2 * h == Modulus(w)
  {
    if w == 32 then 0x8000_0000 else 0x8000_0000_0000_0000
  }

  /** An unsigned word (`uintptr_t`, `size_t`). */
  predicate IsUWord(w: Width, x: int) {
    0 <= x < Modulus(w)
  }

  /** A signed word (`intptr_t`). */
  predicate IsSWord(w: Width, x: int) {
    -Half(w) <= x < Half(w)
  }

  /** The unsigned word with the same bits as `x` (cast to an unsigned type, reducing modulo 2^W). */
  function ToUnsigned(w: Width, x: int): (u: nat)
    ensures IsUWord(w, u)
    ensures (x - u) % Modulus(w) == 0
  {
    x % Modulus(w)
  }

  /** The signed word with the same bits as `x` (two's complement reinterpretation, modulo 2^W). */
  function ToSigned(w: Width, x: int): (s: int)
    ensures IsSWord(w, s)
    ensures (x - s) % Modulus(w) == 0
  {
    var u := ToUnsigned(w, x);
    if u < Half(w) then u
    else
      assert (x - (u - Modulus(w))) % Modulus(w) == 0 by {
        if w == 32 {
          assert (x - u) % 0x1_0000_0000 == 0;
        } else {
          assert (x - u) % 0x1_0000_0000_0000_0000 == 0;
        }
      }
      u - Modulus(w)
  }

  /** Reducing a value less than one modulus outside [0, 2^W) moves it by at most one modulus. */
  lemma UnsignedNear(w: Width, x: int)
    requires -Modulus(w) <= x < 2 * Modulus(w)
    ensures ToUnsigned(w, x) == if x < 0 then x + Modulus(w) else if x < Modulus(w) then x else x - Modulus(w)
  {
    if w == 32 {
      assert ToUnsigned(w, x) == x % 0x1_0000_0000;
    } else {
      assert ToUnsigned(w, x) == x % 0x1_0000_0000_0000_0000;
    }
  }

  /** Reinterpreting a value less than one modulus outside the signed range moves it by at most one modulus. */
  lemma SignedNear(w: Width, x: int)
    requires -Modulus(w) <= x < Modulus(w) + Half(w)
    ensures ToSigned(w, x) == if x < -Half(w) then x + Modulus(w) else if x < Half(w) then x else x - Modulus(w)
  {
    UnsignedNear(w, x);
  }

  lemma SignedOfSigned(w: Width, x: int)
    requires IsSWord(w, x)
    ensures ToSigned(w, x) == x
  {
  }

  lemma UnsignedSignedInverse(w: Width, u: int)
    requires IsUWord(w, u)
    ensures ToUnsigned(w, ToSigned(w, u)) == u
  {
  }

  lemma SignedUnsignedInverse(w: Width, s: int)
    requires IsSWord(w, s)
    ensures ToSigned(w, ToUnsigned(w, s)) == s
  {
    UnsignedNear(w, s);
    SignedNear(w, ToUnsigned(w, s));
  }

  /** 2^k. */
  function Pow2(k: nat): (r: nat)
    ensures r >= 1
    ensures k >= 1 ==> r % 2 == 0
  {
    if k == 0 then 1 else 2 * Pow2(k - 1)
  }

  lemma {:induction false} Pow2Monotone(j: nat, k: nat)
    requires j <= k
    ensures Pow2(j) <= Pow2(k)
  {
    if j < k {
      Pow2Monotone(j, k - 1);
    }
  }

  lemma {:induction false} Pow2Add(j: nat, k: nat)
    ensures Pow2(j + k) == Pow2(j) * Pow2(k)
  {
    if k > 0 {
      Pow2Add(j, k - 1);
      assert Pow2(j + k) == 2 * Pow2(j + (k - 1));
      DoubleProduct(Pow2(j), Pow2(k - 1));
    }
  }

  lemma DoubleProduct(a: int, b: int)
    ensures 2 * (a * b) == a * (2 * b)
  {
  }

  /** The powers of two that name word sizes. */
  lemma Pow2Values()
    ensures Pow2(7) == 128 && Pow2(8) == 256 && Pow2(16) == 0x1_0000
    ensures Pow2(32) == 0x1_0000_0000 && Pow2(64) == 0x1_0000_0000_0000_0000
  {
    assert Pow2(1) == 2;
    Pow2Add(1, 1);
    Pow2Add(2, 2);
    Pow2Add(4, 4);
    Pow2Add(7, 1);
    Pow2Add(8, 8);
    Pow2Add(16, 16);
    Pow2Add(32, 32);
    assert Pow2(3) == 8 by { Pow2Add(2, 1); }
    assert Pow2(7) == 128 by { Pow2Add(4, 3); }
  }
}
