/**
 * Arithmetic and hash helpers of `src/core/algorithm.c` and the two macros
 * of `core/algorithm.h`.
 *
 * Exact integers model `uint32_t`/`size_t` arithmetic with explicit
 * reduction modulo 2^32 or 2^W; the MurmurHash3 mixing, which is made of
 * xor, rotation and wrapping multiplication, is written on `bv32`.
 */
module Algorithm {
  import opened Words
  import SmallInt

  type U32 = x: nat | x < 0x1_0000_0000

  /* ----- numbers --------------------------------------------------------- */

  /** `b` to the power `e`, exactly. */
  function Pow(b: nat, e: nat): nat {
    if e == 0 then 1 else b * Pow(b, e - 1)
  }

  lemma {:induction false} PowAdd(b: nat, i: nat, j: nat)
    ensures Pow(b, i + j) == Pow(b, i) * Pow(b, j)
  {
    if j > 0 {
      PowAdd(b, i, j - 1);
    }
  }

  /** Squaring the base halves an even exponent. */
  lemma {:induction false} PowSquare(b: nat, k: nat)
    ensures Pow(b * b, k) == Pow(b, 2 * k)
  {
    if k > 0 {
      PowSquare(b, k - 1);
      PowAdd(b, 2, 2 * k - 2);
    }
  }

  /** For a base of at least 1 every power is at least 1. */
  lemma {:induction false} PowPositive(b: nat, k: nat)
    requires b >= 1
    ensures Pow(b, k) >= 1
  {
    if k > 0 {
      PowPositive(b, k - 1);
    }
  }

  lemma MulAtLeast(a: nat, x: nat)
    requires x >= 1
    ensures a * x >= a
  {
  }

  /** `uint32_mul_overflow(a, b, &res)`: whether the exact product needs more than 32 bits, and its low 32 bits. */
  function MulOverflow(a: U32, b: U32): (r: (bool, U32))
    ensures r.0 <==> a * b >= 0x1_0000_0000
    ensures !r.0 ==> r.1 == a * b
  {
    (a * b >= 0x1_0000_0000, (a * b) % 0x1_0000_0000)
  }

  /** One odd-exponent step: multiplying the result by the base. */
  lemma OddStep(result: nat, base: nat, e: nat, p: nat)
    requires e >= 1 && result * Pow(base, e) == p
    ensures (result * base) * Pow(base, e - 1) == p
    ensures result * base >= 0x1_0000_0000 ==> p >= 0x1_0000_0000
  {
    var tail := Pow(base, e - 1);
    assert result * Pow(base, e) == (result * base) * tail;
    if result * base >= 0x1_0000_0000 {
      PowPositive(base, e - 1);
      MulAtLeast(result * base, tail);
    }
  }

  /** One squaring step: an even exponent is halved as the base is squared. */
  lemma EvenStep(result: nat, base: nat, e: nat, p: nat)
    requires e >= 2 && e % 2 == 0 && result * Pow(base, e) == p
    requires result >= 1 || base == 0
    ensures result * Pow(base * base, e / 2) == p
    ensures base * base >= 0x1_0000_0000 ==> p >= 0x1_0000_0000
  {
    var k := e / 2;
    PowSquare(base, k);
    if base * base >= 0x1_0000_0000 {
      assert Pow(base * base, k) == (base * base) * Pow(base * base, k - 1);
      PowPositive(base * base, k - 1);
      MulAtLeast(base * base, Pow(base * base, k - 1));
      MulAtLeast(Pow(base * base, k), result);
    }
  }

  /**
   * `zis_math_pow_u32`: square-and-multiply on 32-bit words.  It gives 1 for
   * exponent 0 (even for base 0), the exact power when that fits in 32 bits,
   * and 0 on overflow.
   */
  method PowU32(base0: U32, exponent0: U32) returns (r: U32)
    ensures exponent0 == 0 ==> r == 1
    ensures exponent0 > 0 ==> r == if Pow(base0, exponent0) < 0x1_0000_0000 then Pow(base0, exponent0) else 0
  {
    if exponent0 == 0 {
      return 1;
    }
    ghost var p := Pow(base0, exponent0);
    var result: U32 := 1;
    var base: U32 := base0;
    var exponent: nat := exponent0;
    while true
      invariant exponent >= 1
      invariant result * Pow(base, exponent) == p
      invariant result >= 1 || base == 0
      decreases exponent
    {
      ghost var rest := exponent;
      if exponent % 2 == 1 {
        OddStep(result, base, exponent, p);
        var (overflow, res) := MulOverflow(result, base);
        if overflow {
          return 0;
        }
        result := res;
        if exponent == 1 {
          break;
        }
        rest := exponent - 1;
      }
      EvenStep(result, base, rest, p);
      var (overflow, sq) := MulOverflow(base, base);
      if overflow {
        return 0;
      }
      base := sq;
      exponent := exponent / 2;
    }
    return result;
  }

  /* ----- hash functions ---------------------------------------------------- */

  /** `zis_hash_pointer`: the pointer shifted right by 4 bits. */
  function HashPointer(w: Width, p: nat): (h: nat)
    requires IsUWord(w, p)
    ensures h * 16 <= p < h * 16 + 16
  {
    p / 16
  }

  /** Distinct 16-byte aligned pointers hash differently. */
  lemma HashPointerAligned(w: Width, p: nat, q: nat)
    requires IsUWord(w, p) && IsUWord(w, q) && p % 16 == 0 && q % 16 == 0 && p != q
    ensures HashPointer(w, p) != HashPointer(w, q)
  {
  }

  /**
   * `zis_hash_truncate`: `((intptr_t)h << 1) >> 1`, a wrapping shift left and
   * an arithmetic shift right, which sign-extends bit W-2.
   */
  function HashTruncate(w: Width, h: nat): (r: nat)
    requires IsUWord(w, h)
    ensures IsUWord(w, r)
  {
    ToUnsigned(w, ToSigned(w, 2 * ToSigned(w, h)) / 2)
  }

  /** The truncated hash is a small int; it differs from the hash at most in bit W-1. */
  lemma HashTruncateRange(w: Width, h: nat)
    requires IsUWord(w, h)
    ensures SmallInt.InRange(w, ToSigned(w, HashTruncate(w, h)))
    ensures HashTruncate(w, h) == h || HashTruncate(w, h) == h + Half(w) || HashTruncate(w, h) == h - Half(w)
  {
    var half := Half(w);
    var s1 := ToSigned(w, h);
    SignedNear(w, h);
    var t := ToSigned(w, 2 * s1);
    SignedNear(w, 2 * s1);
    var d := t / 2;
    assert d == if 2 * s1 < -half then s1 + half else if 2 * s1 < half then s1 else s1 - half;
    var r := ToUnsigned(w, d);
    UnsignedNear(w, d);
    SignedNear(w, r);
    assert ToSigned(w, r) == d;
  }

  /** Hashes already in small-int range are unchanged. */
  lemma HashTruncateKeepsSmall(w: Width, h: nat)
    requires IsUWord(w, h) && SmallInt.InRange(w, ToSigned(w, h))
    ensures HashTruncate(w, h) == h
  {
    var s1 := ToSigned(w, h);
    SignedOfSigned(w, 2 * s1);
    assert 2 * s1 / 2 == s1;
    UnsignedSignedInverse(w, h);
  }

  /** `rotl32(x, r)` for a shift count 0 < r < 32. */
  function Rotl32(x: bv32, r: bv32): bv32
    requires 0 < r < 32
  {
    (x << r) | (x >> (32 - r))
  }

  /** Rotating left by r and then by 32 - r gives the word back: `rotl32` is a rotation. */
  lemma RotlInverse(x: bv32, r: bv32)
    requires 0 < r < 32
    ensures Rotl32(Rotl32(x, r), 32 - r) == x
  {
  }

  const C1: bv32 := 0xcc9e2d51
  const C2: bv32 := 0x1b873593

  /** The 32-bit block at byte offset 4j, read little-endian (the x86 byte order). */
  function Block(data: seq<bv8>, j: nat): bv32
    requires 4 * j + 4 <= |data|
  {
    (data[4 * j] as bv32) | ((data[4 * j + 1] as bv32) << 8) |
    ((data[4 * j + 2] as bv32) << 16) | ((data[4 * j + 3] as bv32) << 24)
  }

  /** The scrambling of one block or of the tail. */
  function MixK(k: bv32): bv32 {
    Rotl32(k * C1, 15) * C2
  }

  /** One body round of the hash state. */
  function MixH(h: bv32, k: bv32): bv32 {
    Rotl32(h ^ MixK(k), 13) * 5 + 0xe6546b64
  }

  /** The state after the first `n` blocks. */
  function BodyHash(data: seq<bv8>, seed: bv32, n: nat): bv32
    requires 4 * n <= |data|
  {
    if n == 0 then seed else MixH(BodyHash(data, seed, n - 1), Block(data, n - 1))
  }

  /** The 1 to 3 bytes after the last block, combined as the fall-through switch does. */
  function TailK(data: seq<bv8>): bv32 {
    var t := |data| / 4 * 4;
    var rem := |data| % 4;
    (if rem >= 3 then (data[t + 2] as bv32) << 16 else 0) ^
    (if rem >= 2 then (data[t + 1] as bv32) << 8 else 0) ^
    (if rem >= 1 then data[t] as bv32 else 0)
  }

  /** The tail after the blocks: 1 to 3 bytes scrambled into the state, nothing when the length is a multiple of 4. */
  function TailMix(h: bv32, data: seq<bv8>): bv32 {
    if |data| % 4 == 0 then h else h ^ MixK(TailK(data))
  }

  /** The length as the 32-bit word mixed into the state. */
  function LenWord(n: nat): bv32
    requires n < 0x8000_0000
  {
    n as bv32
  }

  /** The final avalanche. */
  function Fmix(h: bv32): bv32 {
    var h1 := h ^ (h >> 16);
    var h2 := h1 * 0x85ebca6b;
    var h3 := h2 ^ (h2 >> 13);
    var h4 := h3 * 0xc2b2ae35;
    h4 ^ (h4 >> 16)
  }

  /** The length mixed in, then the avalanche. */
  function Finalize(h: bv32, n: nat): bv32
    requires n < 0x8000_0000
  {
    Fmix(h ^ LenWord(n))
  }

  /** MurmurHash3_x86_32 of `data` (at most 2^31 - 1 bytes) with `seed`. */
  function Murmur3(data: seq<bv8>, seed: bv32): bv32
    requires |data| < 0x8000_0000
  {
    Finalize(TailMix(BodyHash(data, seed, |data| / 4), data), |data|)
  }

  /** `MurmurHash3_x86_32`: the block loop, then the tail and the avalanche, computing `Murmur3`. */
  method MurmurHash3(data: seq<bv8>, seed: bv32) returns (h1: bv32)
    requires |data| < 0x8000_0000
    ensures h1 == Murmur3(data, seed)
  {
    var nblocks := |data| / 4;
    h1 := seed;
    var j := 0;
    while j < nblocks
      invariant j <= nblocks
      invariant h1 == BodyHash(data, seed, j)
    {
      ghost var h0 := h1;
      var k1 := MixK(Block(data, j));
      h1 := h1 ^ k1;
      h1 := Rotl32(h1, 13);
      h1 := h1 * 5 + 0xe6546b64;
      assert h1 == MixH(h0, Block(data, j));
      j := j + 1;
    }
    h1 := TailMix(h1, data);
    h1 := Finalize(h1, |data|);
  }

  /** The seed of `zis_hash_bytes`. */
  const HashSeed: bv32 := 0x5d9ee90

  /**
   * `zis_hash_bytes`: MurmurHash3 with the fixed seed.  Where `unsigned int`
   * is narrower than `size_t` (64-bit) the 32-bit hash is returned as is,
   * otherwise (32-bit) it is masked with `SIZE_MAX >> 2`.
   */
  function HashBytes(w: Width, data: seq<bv8>): (h: nat)
    requires |data| < 0x8000_0000
    ensures 0 <= h <= SmallInt.Max(w)
  {
    var h32 := Murmur3(data, HashSeed);
    if w == 64 then h32 as nat
    else (h32 & 0x3fff_ffff) as nat
  }

  /* ----- division facts used by the rounding lemmas ----- */

  lemma DivMod(y: int, n: int)
    requires n > 0
    ensures y == y / n * n + y % n && 0 <= y % n < n
  {
  }

  lemma {:induction false} MulMonotone(a: nat, b: nat, n: nat)
    requires a <= b
    ensures a * n <= b * n
  {
    if a < b {
      MulMonotone(a, b - 1, n);
      assert b * n == (b - 1) * n + n;
    }
  }

  lemma DivModUnique(q: nat, n: nat, c: nat)
    requires 0 <= c < n
    ensures (q * n + c) / n == q && (q * n + c) % n == c
  {
    var y := q * n + c;
    DivMod(y, n);
    var q', c' := y / n, y % n;
    if q' > q {
      MulMonotone(q + 1, q', n);
      assert false;
    } else if q' < q {
      MulMonotone(q' + 1, q, n);
      assert false;
    }
  }

  lemma ModSmall(y: nat, m: nat)
    requires y < m
    ensures y % m == y
  {
    DivModUnique(0, m, y);
  }

  lemma MultipleMod(f: nat, n: nat, m: nat)
    requires n > 0 && m == n * f
    ensures m % n == 0
  {
    DivModUnique(f, n, 0);
  }

  /** Clearing the remainder modulo n leaves the largest multiple of n not above y. */
  lemma RoundDown(y: nat, n: nat)
    requires n > 0
    ensures (y - y % n) % n == 0 && y - n < y - y % n <= y
  {
    DivMod(y, n);
    DivModUnique(y / n, n, 0);
  }

  /** A multiple of n below another multiple of n is at least n below it. */
  lemma MultipleBelow(a: nat, b: nat, n: nat)
    requires n > 0 && a % n == 0 && b % n == 0 && a < b
    ensures a + n <= b
  {
    DivMod(a, n);
    DivMod(b, n);
    var i, j := a / n, b / n;
    assert a == i * n && b == j * n;
    if j <= i {
      MulMonotone(j, i, n);
      assert false;
    }
    MulMonotone(i + 1, j, n);
  }

  /** Rounding a multiple of n up again, modulo m, gives it back. */
  lemma RoundUpMultiple(r: nat, n: nat, m: nat)
    requires n > 0 && r % n == 0 && m % n == 0 && r < m
    ensures var y := (r + (n - 1)) % m; y - y % n == r
  {
    MultipleBelow(r, m, n);
    ModSmall(r + (n - 1), m);
    DivMod(r, n);
    var q := r / n;
    assert r == q * n;
    DivModUnique(q, n, n - 1);
    assert (r + (n - 1)) % n == n - 1;
  }

  /* ----- core/algorithm.h ------------------------------------------------- */

  /** `y & ~(n - 1)` for a power of two `n`: clearing the bits below `n` subtracts the remainder modulo `n`. */
  function ClearLowBits(y: nat, n: nat): (r: nat)
    requires n > 0
    ensures r % n == 0 && y - n < r <= y
  {
    RoundDown(y, n);
    y - y % n
  }

  /** `zis_round_up_to_n_pow2(n, x)` for n = 2^k: `(x + (n - 1)) & ~(n - 1)` in `size_t`. */
  function RoundUp(w: Width, k: nat, x: nat): (r: nat)
    requires IsUWord(w, x) && k < w
    ensures IsUWord(w, r)
  {
    ClearLowBits(ToUnsigned(w, x + (Pow2(k) - 1)), Pow2(k))
  }

  /** A power of two below 2^W divides 2^W. */
  lemma Pow2DividesModulus(w: Width, k: nat)
    requires k < w
    ensures Modulus(w) % Pow2(k) == 0
  {
    var n, f := Pow2(k), Pow2(w - k);
    Pow2Add(k, w - k);
    var m := Modulus(w);
    assert m == Pow2(w) by {
      Pow2Values();
    }
    MultipleMod(f, n, m);
  }

  /** The result is a multiple of n. */
  lemma RoundUpMultipleOf(w: Width, k: nat, x: nat)
    requires IsUWord(w, x) && k < w
    ensures RoundUp(w, k, x) % Pow2(k) == 0
  {
  }

  /** Unless x + n - 1 wraps around, the result is the least multiple of n that is at least x. */
  lemma RoundUpLeast(w: Width, k: nat, x: nat)
    requires IsUWord(w, x) && k < w && x + Pow2(k) - 1 < Modulus(w)
    ensures x <= RoundUp(w, k, x) < x + Pow2(k)
  {
    UnsignedNear(w, x + (Pow2(k) - 1));
  }

  /** Rounding up twice is rounding up once. */
  lemma RoundUpIdempotent(w: Width, k: nat, x: nat)
    requires IsUWord(w, x) && k < w
    ensures RoundUp(w, k, RoundUp(w, k, x)) == RoundUp(w, k, x)
  {
    RoundUpMultipleOf(w, k, x);
    Pow2DividesModulus(w, k);
    RoundUpMultiple(RoundUp(w, k, x), Pow2(k), Modulus(w));
  }

  /** `zis_uint_in_range(T, x, lo, hi)`: `(T)(x - lo) <= (T)(hi - lo)`. */
  predicate UintInRange(w: Width, x: nat, lo: nat, hi: nat)
    requires IsUWord(w, x) && IsUWord(w, lo) && IsUWord(w, hi)
  {
    ToUnsigned(w, x - lo) <= ToUnsigned(w, hi - lo)
  }

  /** With lo <= hi the single wrapped comparison is the two-sided range test. */
  lemma UintInRangeIff(w: Width, x: nat, lo: nat, hi: nat)
    requires IsUWord(w, x) && IsUWord(w, lo) && IsUWord(w, hi) && lo <= hi
    ensures UintInRange(w, x, lo, hi) <==> lo <= x <= hi
  {
    var m := Modulus(w);
    if x < lo {
      assert ToUnsigned(w, x - lo) == x - lo + m;
    }
  }
}
