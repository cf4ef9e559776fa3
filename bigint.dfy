/**
 * The limb routines of the arbitrary-precision integers (core/intobj.c): a
 * magnitude is a little-endian vector of 32-bit cells, and every routine is
 * proved against the number `Value` of its cell vectors.  Input vectors that a
 * routine only reads are sequences; the vectors it writes are arrays.
 */
module BigInt {
  import Words

  const Base: nat := 0x1_0000_0000
  const CellMax: nat := 0xffff_ffff

  /** `bigint_cell_t`. */
  type Cell = x: int | 0 <= x < 0x1_0000_0000

  /** Base^k, the weight of cell k. */
  function Weight(k: nat): (w: nat)
    ensures w >= 1
  {
    if k == 0 then 1 else Base * Weight(k - 1)
  }

  /** The number a little-endian cell vector denotes. */
  function Value(s: seq<Cell>): nat {
    if s == [] then 0 else s[0] + Base * Value(s[1..])
  }

  /** The magnitude is normalised: at least one cell and no leading zero cell. */
  predicate Normal(s: seq<Cell>) {
    |s| > 0 && s[|s| - 1] != 0
  }

  function Zeros(n: nat): (z: seq<Cell>)
    ensures |z| == n
  {
    seq(n, _ => 0)
  }

  lemma {:induction false} WeightMonotone(j: nat, k: nat)
    requires j <= k
    ensures Weight(j) <= Weight(k)
  {
    if j < k {
      WeightMonotone(j, k - 1);
    }
  }

  lemma {:induction false} WeightAdd(j: nat, k: nat)
    ensures Weight(j + k) == Weight(j) * Weight(k)
  {
    if k > 0 {
      WeightAdd(j, k - 1);
      calc {
        Weight(j + k);
        Base * Weight(j + k - 1);
        Base * (Weight(j) * Weight(k - 1));
        Weight(j) * (Base * Weight(k - 1));
      }
    }
  }

  /** The weight of cell k is 2^(32k). */
  lemma {:induction false} WeightIsPow2(k: nat)
    ensures Weight(k) == Words.Pow2(32 * k)
  {
    if k > 0 {
      WeightIsPow2(k - 1);
      Words.Pow2Values();
      Words.Pow2Add(32, 32 * (k - 1));
      assert 32 * k == 32 + 32 * (k - 1);
    }
  }

  /** A vector followed by another: the second is weighted by the length of the first. */
  lemma {:induction false} ValueConcat(s: seq<Cell>, t: seq<Cell>)
    ensures Value(s + t) == Value(s) + Weight(|s|) * Value(t)
  {
    if s != [] {
      assert (s + t)[1..] == s[1..] + t;
      ValueConcat(s[1..], t);
      ScaleSum(Value(s[1..]), Weight(|s| - 1), Value(t));
    } else {
      assert s + t == t;
    }
  }

  /** Appending a cell adds it at the weight of the old length. */
  lemma ValueSnoc(s: seq<Cell>, x: Cell)
    ensures Value(s + [x]) == Value(s) + x * Weight(|s|)
  {
    assert Value([x]) == x by {
      assert [x][1..] == [];
    }
    ValueConcat(s, [x]);
    assert Weight(|s|) * Value([x]) == x * Weight(|s|);
  }

  lemma ScaleSum(v: int, w: int, t: int)
    ensures Base * (v + w * t) == Base * v + (Base * w) * t
  {
  }

  /** The value of s[i..] unfolds at its first cell. */
  lemma ValueFrom(s: seq<Cell>, i: nat)
    requires i < |s|
    ensures Value(s[i..]) == s[i] + Base * Value(s[i + 1..])
  {
    assert s[i..][1..] == s[i + 1..];
  }

  /** A prefix followed by the rest. */
  lemma ValueSplit(s: seq<Cell>, i: nat)
    requires i <= |s|
    ensures Value(s) == Value(s[..i]) + Weight(i) * Value(s[i..])
  {
    assert s == s[..i] + s[i..];
    ValueConcat(s[..i], s[i..]);
  }

  /** A value of n cells is below Base^n. */
  lemma {:induction false} ValueBound(s: seq<Cell>)
    ensures Value(s) < Weight(|s|)
  {
    if s != [] {
      ValueBound(s[1..]);
      assert Value(s[1..]) <= Weight(|s| - 1) - 1;
      assert Base * Value(s[1..]) <= Base * Weight(|s| - 1) - Base;
    }
  }

  /** A normalised value of n cells is at least Base^(n-1). */
  lemma ValueTop(s: seq<Cell>)
    requires Normal(s)
    ensures Value(s) >= Weight(|s| - 1)
  {
    var n := |s|;
    ValueSplit(s, n - 1);
    assert s[n - 1..] == [s[n - 1]] + [];
    assert Value(s[n - 1..]) == s[n - 1];
  }

  lemma {:induction false} ValueZeros(n: nat)
    ensures Value(Zeros(n)) == 0
  {
    if n > 0 {
      assert Zeros(n)[1..] == Zeros(n - 1);
      ValueZeros(n - 1);
    }
  }

  /** Leading zero cells do not change the value. */
  lemma ValueZeroTail(s: seq<Cell>, n: nat)
    ensures Value(s + Zeros(n)) == Value(s)
  {
    ValueConcat(s, Zeros(n));
    ValueZeros(n);
  }

  /** Zero cells below shift the value up by whole cells. */
  lemma ValueZeroHead(n: nat, s: seq<Cell>)
    ensures Value(Zeros(n) + s) == Weight(n) * Value(s)
  {
    ValueConcat(Zeros(n), s);
    ValueZeros(n);
  }

  /** The value of the first i cells, or of all of them when there are fewer (`i < len ? v[i] : 0`). */
  function PrefixValue(s: seq<Cell>, i: nat): nat {
    if i <= |s| then Value(s[..i]) else Value(s)
  }

  function CellAt(s: seq<Cell>, i: nat): Cell {
    if i < |s| then s[i] else 0
  }

  lemma PrefixValueStep(s: seq<Cell>, i: nat)
    ensures PrefixValue(s, i + 1) == PrefixValue(s, i) + CellAt(s, i) * Weight(i)
  {
    if i < |s| {
      assert s[..i + 1] == s[..i] + [s[i]];
      ValueSnoc(s[..i], s[i]);
    } else if i == |s| {
      assert s[..i] == s;
    }
  }

  lemma PrefixValueAll(s: seq<Cell>, i: nat)
    requires i >= |s|
    ensures PrefixValue(s, i) == Value(s)
  {
    if i == |s| {
      assert s[..i] == s;
    }
  }

  // ----- bit width -----

  /** The number of significant bits of a cell, `32 - count_lz(c)`; zero has none. */
  function CellWidth(c: nat): nat {
    if c == 0 then 0 else 1 + CellWidth(c / 2)
  }

  /** A non-zero cell of width w lies in [2^(w-1), 2^w). */
  lemma {:induction false} CellWidthBounds(c: nat)
    requires c > 0
    ensures CellWidth(c) >= 1
    ensures Words.Pow2(CellWidth(c) - 1) <= c < Words.Pow2(CellWidth(c))
  {
    if c > 1 {
      CellWidthBounds(c / 2);
    }
  }

  lemma CellWidthAtMost32(c: Cell)
    requires c > 0
    ensures CellWidth(c) <= 32
  {
    CellWidthBounds(c);
    CellPow2();
    if CellWidth(c) > 32 {
      Words.Pow2Monotone(32, CellWidth(c) - 1);
    }
  }

  /**
   * `bigint_width`: the bit width of a normalised magnitude,
   * `len * 32 - count_lz(top cell)`.
   */
  function Width(a: seq<Cell>): (w: nat)
    requires Normal(a)
    ensures 32 * (|a| - 1) < w <= 32 * |a|
  {
    CellWidthBounds(a[|a| - 1]);
    CellWidthAtMost32(a[|a| - 1]);
    32 * (|a| - 1) + CellWidth(a[|a| - 1])
  }

  lemma WidthArith(lo: nat, W: nat, top: nat, P: nat, Q: nat, v: nat)
    requires v == lo + W * top && lo < W && P <= top < Q && Q == 2 * P
    ensures W * P <= v < W * Q
  {
    MulAtMost(W, P, top);
    MulAtMost(W, top + 1, Q);
  }

  /** The value of a normalised vector splits into the cells below the top one and the top one. */
  lemma TopSplit(a: seq<Cell>)
    requires Normal(a)
    ensures Value(a) == Value(a[..|a| - 1]) + Weight(|a| - 1) * a[|a| - 1]
    ensures Value(a[..|a| - 1]) < Weight(|a| - 1)
  {
    var n := |a|;
    ValueSplit(a, n - 1);
    ValueBound(a[..n - 1]);
    ValueFrom(a, n - 1);
    assert a[n..] == [];
  }

  /** The weight of the top cell times the powers bounding the top cell. */
  lemma WidthPowers(n: nat, cw: nat)
    requires cw >= 1
    ensures Weight(n) * Words.Pow2(cw - 1) == Words.Pow2(32 * n + cw - 1)
    ensures Weight(n) * Words.Pow2(cw) == Words.Pow2(32 * n + cw)
    ensures Words.Pow2(cw) == 2 * Words.Pow2(cw - 1)
  {
    WeightIsPow2(n);
    Words.Pow2Add(32 * n, cw - 1);
    Words.Pow2Add(32 * n, cw);
  }

  /** The width is the bit length of the value: 2^(w-1) <= value < 2^w. */
  lemma WidthBounds(a: seq<Cell>)
    requires Normal(a)
    ensures Words.Pow2(Width(a) - 1) <= Value(a) < Words.Pow2(Width(a))
  {
    var n, top := |a|, a[|a| - 1];
    var cw := CellWidth(top);
    CellWidthBounds(top);
    TopSplit(a);
    WidthPowers(n - 1, cw);
    WidthArith(Value(a[..n - 1]), Weight(n - 1), top, Words.Pow2(cw - 1), Words.Pow2(cw), Value(a));
  }

  // ----- single-cell multiply-add and divide -----

  /** One step of `bigint_self_mul_add_1`: the low half is stored and the high half carried. */
  lemma MulAddStep(lo: int, olo: int, v: Cell, b: Cell, c: int, k: Cell, w: nat, p: nat)
    requires lo + k * w == olo * b + c
    requires p == v * b + k
    ensures p / Base < Base
    ensures lo + (p % Base) * w + (p / Base) * (Base * w) == (olo + v * w) * b + c
  {
    ProductBound(v, b);
    SplitCell(p, w);
    assert p * w == v * b * w + k * w;
    MulRearrange(olo, v, w, b);
  }

  /**
   * `bigint_self_mul_add_1`: a := a * b + c, returning the carry out of the
   * top cell, so that nothing is lost.
   */
  method SelfMulAdd1(a: array<Cell>, b: Cell, c: Cell) returns (carry: Cell)
    modifies a
    ensures Value(a[..]) + carry * Weight(a.Length) == Value(old(a[..])) * b + c
  {
    carry := c;
    var i := 0;
    while i < a.Length
      invariant 0 <= i <= a.Length
      invariant forall k :: i <= k < a.Length ==> a[k] == old(a[k])
      invariant Value(a[..i]) + carry * Weight(i) == Value(old(a[..i])) * b + c
    {
      var v := a[i];
      var p := v * b + carry;
      ghost var low, olow := a[..i], old(a[..i]);
      MulAddStep(Value(low), Value(olow), v, b, c, carry, Weight(i), p);
      ValueSnoc(low, p % Base);
      ValueSnoc(olow, v);
      assert old(a[..i + 1]) == olow + [v];
      a[i] := p % Base;
      assert a[..i + 1] == low + [p % Base];
      carry := p / Base;
      i := i + 1;
    }
    assert a[..] == a[..a.Length];
    assert old(a[..]) == old(a[..a.Length]);
  }

  /** One step of `bigint_self_div_1`: the remainder moves down into the next cell. */
  lemma DivStep(v: Cell, rem: nat, b: nat, hi: nat, vh: nat)
    requires 0 < b <= Base && rem < b
    requires vh == hi * b + rem
    ensures (v + rem * Base) / b < Base
    ensures v + Base * vh == ((v + rem * Base) / b + Base * hi) * b + (v + rem * Base) % b
  {
    var x := v + rem * Base;
    assert x < b * Base by {
      assert rem * Base <= (b - 1) * Base;
    }
    assert (x / b) * b <= x < Base * b;
    assert x == (x / b) * b + x % b;
    assert Base * vh == Base * hi * b + rem * Base;
    assert (x / b + Base * hi) * b == (x / b) * b + Base * hi * b;
  }

  /**
   * `bigint_self_div_1`: a := a / b from the top cell down, returning the
   * remainder.
   */
  method SelfDiv1(a: array<Cell>, b: Cell) returns (rem: Cell)
    requires b != 0
    modifies a
    ensures Value(old(a[..])) == Value(a[..]) * b + rem && rem < b
  {
    rem := 0;
    var i := a.Length;
    while i > 0
      invariant 0 <= i <= a.Length
      invariant a[..i] == old(a[..i])
      invariant rem < b
      invariant Value(old(a[i..])) == Value(a[i..]) * b + rem
    {
      var v := a[i - 1];
      var x := v + rem * Base;
      ghost var hi := Value(a[i..]);
      DivStep(v, rem, b, hi, Value(old(a[i..])));
      ValueFrom(old(a[..]), i - 1);
      assert old(a[..])[i - 1..] == old(a[i - 1..]) && old(a[..])[i..] == old(a[i..]);
      a[i - 1] := x / b;
      ValueFrom(a[..], i - 1);
      assert a[..][i..] == a[i..];
      rem := x % b;
      i := i - 1;
    }
    assert a[..] == a[0..] && old(a[..]) == old(a[0..]);
  }

  // ----- comparison, addition and subtraction -----

  /** A cell split into its low half, at weight w, and its high half, one cell up. */
  lemma SplitCell(p: nat, w: nat)
    ensures (p % Base) * w + (p / Base) * (Base * w) == p * w
  {
    assert (p / Base) * (Base * w) == (p / Base * Base) * w;
    assert (p % Base) * w + (p / Base * Base) * w == (p % Base + p / Base * Base) * w;
  }

  /** Between normalised magnitudes the longer one is the larger. */
  lemma LengthDecides(a: seq<Cell>, b: seq<Cell>)
    requires Normal(b) && |a| < |b|
    ensures Value(a) < Value(b)
  {
    ValueBound(a);
    WeightMonotone(|a|, |b| - 1);
    ValueTop(b);
  }

  /** A lower part below w cannot make up for a smaller digit at weight w. */
  lemma LessAtWeight(lo: nat, w: nat, xa: nat, xb: nat, r: nat)
    requires lo < w && xa < xb
    ensures lo + w * (xa + Base * r) < w * (xb + Base * r)
  {
    var t, d := xa + Base * r, xb - xa;
    assert xb + Base * r == t + d;
    assert w * (t + d) == w * t + w * d;
    assert w * d == w + w * (d - 1);
  }

  /** Between equal-length vectors that agree above cell i, cell i decides. */
  lemma CellDecides(a: seq<Cell>, b: seq<Cell>, i: nat)
    requires |a| == |b| && i < |a| && a[i + 1..] == b[i + 1..] && a[i] < b[i]
    ensures Value(a) < Value(b)
  {
    var r, w := Value(a[i + 1..]), Weight(i);
    var ta, tb := a[i] + Base * r, b[i] + Base * r;
    assert Value(a) == Value(a[..i]) + w * ta by {
      ValueSplit(a, i);
      ValueFrom(a, i);
    }
    assert Value(b) == Value(b[..i]) + w * tb by {
      ValueSplit(b, i);
      ValueFrom(b, i);
    }
    assert Value(a[..i]) + w * ta < w * tb by {
      ValueBound(a[..i]);
      LessAtWeight(Value(a[..i]), w, a[i], b[i], r);
    }
  }

  /**
   * `bigint_cmp`: normalised magnitudes compare by length first, then cell by
   * cell from the top; the result is -1, 0 or 1 as the values compare.
   */
  method Cmp(a: seq<Cell>, b: seq<Cell>) returns (r: int)
    requires Normal(a) && Normal(b)
    ensures r == -1 || r == 0 || r == 1
    ensures r < 0 <==> Value(a) < Value(b)
    ensures r == 0 <==> Value(a) == Value(b)
  {
    if |a| != |b| {
      if |a| < |b| {
        LengthDecides(a, b);
        return -1;
      } else {
        LengthDecides(b, a);
        return 1;
      }
    }
    var i := |a|;
    while i > 0
      invariant 0 <= i <= |a|
      invariant a[i..] == b[i..]
    {
      if a[i - 1] != b[i - 1] {
        if a[i - 1] < b[i - 1] {
          CellDecides(a, b, i - 1);
          return -1;
        } else {
          CellDecides(b, a, i - 1);
          return 1;
        }
      }
      assert a[i - 1..] == [a[i - 1]] + a[i..];
      assert b[i - 1..] == [b[i - 1]] + b[i..];
      i := i - 1;
    }
    assert a == a[0..] && b == b[0..];
    return 0;
  }

  /** Two values of fewer than n cells sum to less than Base^n. */
  lemma SumBound(a: seq<Cell>, b: seq<Cell>, n: nat)
    requires n > |a| && n > |b|
    ensures Value(a) + Value(b) < Weight(n)
  {
    ValueBound(a);
    ValueBound(b);
    WeightMonotone(|a|, n - 1);
    WeightMonotone(|b|, n - 1);
  }

  /** One step of the carry loop of `bigint_add`. */
  lemma AddStep(lo: int, k: int, w: nat, pa: int, pb: int, x: int, z: int, sc: nat)
    requires lo + k * w == pa + pb && sc == x + z + k
    ensures sc / Base <= 1 || sc >= 2 * Base
    ensures lo + (sc % Base) * w + (sc / Base) * (Base * w) == (pa + x * w) + (pb + z * w)
  {
    SplitCell(sc, w);
    assert sc * w == x * w + z * w + k * w;
  }

  /**
   * `bigint_add`: y := a + b over y.Length cells, longer than both inputs, so
   * the final carry is zero.
   */
  method Add(a: seq<Cell>, b: seq<Cell>, y: array<Cell>)
    requires y.Length > |a| && y.Length > |b|
    modifies y
    ensures Value(y[..]) == Value(a) + Value(b)
  {
    var carry := 0;
    var i := 0;
    while i < y.Length
      invariant 0 <= i <= y.Length
      invariant 0 <= carry <= 1
      invariant Value(y[..i]) + carry * Weight(i) == PrefixValue(a, i) + PrefixValue(b, i)
    {
      var x, z := CellAt(a, i), CellAt(b, i);
      var sc := x + z + carry;
      AddStep(Value(y[..i]), carry, Weight(i), PrefixValue(a, i), PrefixValue(b, i), x, z, sc);
      PrefixValueStep(a, i);
      PrefixValueStep(b, i);
      ghost var low := y[..i];
      ValueSnoc(low, sc % Base);
      y[i] := sc % Base;
      assert y[..i + 1] == low + [sc % Base];
      carry := sc / Base;
      i := i + 1;
    }
    PrefixValueAll(a, i);
    PrefixValueAll(b, i);
    SumBound(a, b, i);
    assert carry == 0;
    assert y[..] == y[..i];
  }

  /** `bigint_zero`: cells lo .. hi - 1 become zero, the others keep their values. */
  method ZeroRange(y: array<Cell>, lo: nat, hi: nat)
    requires lo <= hi <= y.Length
    modifies y
    ensures y[..] == old(y[..lo]) + Zeros(hi - lo) + old(y[hi..])
  {
    forall k | lo <= k < hi {
      y[k] := 0;
    }
    assert y[..] == old(y[..lo]) + Zeros(hi - lo) + old(y[hi..]);
  }

  /**
   * `bigint_copy` (and the `memcpy`/`memmove` of the shifts): count cells of
   * a from index from go to y from index to; the other cells keep their values.
   */
  method CopyCells(y: array<Cell>, to: nat, a: seq<Cell>, from: nat, count: nat)
    requires to + count <= y.Length && from + count <= |a|
    modifies y
    ensures y[..] == old(y[..to]) + a[from..from + count] + old(y[to + count..])
  {
    forall k | to <= k < to + count {
      y[k] := a[from + k - to];
    }
    assert y[..] == old(y[..to]) + a[from..from + count] + old(y[to + count..]);
  }

  /** The two `bigint_zero` calls around a result: cells below lo and from hi on become zero. */
  method ZeroOutside(y: array<Cell>, lo: nat, hi: nat)
    requires lo <= hi <= y.Length
    modifies y
    ensures y[..] == Zeros(lo) + old(y[lo..hi]) + Zeros(y.Length - hi)
  {
    ghost var mid := y[lo..hi];
    ZeroRange(y, 0, lo);
    ghost var low := y[..hi];
    assert low == Zeros(lo) + mid by {
      assert forall k :: lo <= k < hi ==> y[k] == mid[k - lo];
    }
    ZeroRange(y, hi, y.Length);
    assert y[..] == low + Zeros(y.Length - hi);
  }

  /** One step of the borrow loop: the difference of two cells and the borrow, kept non-negative. */
  lemma BorrowStep(x: Cell, z: Cell, borrow: nat)
    requires borrow <= 1
    ensures var sb := (CellMax * Base + x) - z - borrow;
      sb >= 0 && CellMax - sb / Base <= 1 && CellMax - sb / Base >= 0 &&
      sb % Base == x - z - borrow + (CellMax - sb / Base) * Base
  {
  }

  /** One step of the borrow loop. */
  lemma SubStep(lo: int, k: int, w: nat, px: int, pz: int, xi: int, zi: int, s: int, k1: int)
    requires lo == px - pz + k * w
    requires s == xi - zi - k + k1 * Base
    ensures lo + s * w == (px + xi * w) - (pz + zi * w) + k1 * (Base * w)
  {
    assert s * w == xi * w - zi * w - k * w + k1 * Base * w;
  }

  /** One cell of the borrow loop, on the cells done so far. */
  lemma SubCellsStep(x: seq<Cell>, z: seq<Cell>, i: nat, low: seq<Cell>, borrow: nat, sb: int)
    requires |low| == i && borrow <= 1
    requires Value(low) == PrefixValue(x, i) - PrefixValue(z, i) + borrow * Weight(i)
    requires sb == (CellMax * Base + CellAt(x, i)) - CellAt(z, i) - borrow
    ensures sb >= 0 && 0 <= CellMax - sb / Base <= 1
    ensures Value(low + [sb % Base]) == PrefixValue(x, i + 1) - PrefixValue(z, i + 1) + (CellMax - sb / Base) * Weight(i + 1)
  {
    var xi, zi := CellAt(x, i), CellAt(z, i);
    BorrowStep(xi, zi, borrow);
    PrefixValueStep(x, i);
    PrefixValueStep(z, i);
    ValueSnoc(low, sb % Base);
    SubStep(Value(low), borrow, Weight(i), PrefixValue(x, i), PrefixValue(z, i), xi, zi, sb % Base, CellMax - sb / Base);
  }

  /**
   * The borrow loop shared by `bigint_sub` and `bigint_self_sub`: y := x - z
   * over y.Length cells, for x >= z, so the final borrow is zero.
   */
  method SubCells(x: seq<Cell>, z: seq<Cell>, y: array<Cell>)
    requires y.Length >= |x| && y.Length >= |z| && Value(x) >= Value(z)
    modifies y
    ensures Value(y[..]) == Value(x) - Value(z)
  {
    var borrow := 0;
    var i := 0;
    while i < y.Length
      invariant 0 <= i <= y.Length
      invariant 0 <= borrow <= 1
      invariant Value(y[..i]) == PrefixValue(x, i) - PrefixValue(z, i) + borrow * Weight(i)
    {
      var xi, zi := CellAt(x, i), CellAt(z, i);
      var sb := (CellMax * Base + xi) - zi - borrow;
      ghost var low := y[..i];
      SubCellsStep(x, z, i, low, borrow, sb);
      y[i] := sb % Base;
      assert y[..i + 1] == low + [sb % Base];
      borrow := CellMax - sb / Base;
      i := i + 1;
    }
    PrefixValueAll(x, i);
    PrefixValueAll(z, i);
    assert y[..] == y[..i];
    ValueBound(y[..]);
    assert borrow == 0;
  }

  /**
   * `bigint_sub`: y := |a - b|, returning whether a < b; equal inputs leave
   * y all zero and return false.
   */
  method Sub(a: seq<Cell>, b: seq<Cell>, y: array<Cell>) returns (neg: bool)
    requires Normal(a) && Normal(b) && y.Length >= |a| && y.Length >= |b|
    modifies y
    ensures neg <==> Value(a) < Value(b)
    ensures Value(y[..]) == if neg then Value(b) - Value(a) else Value(a) - Value(b)
  {
    var c := Cmp(a, b);
    if c > 0 {
      SubCells(a, b, y);
      neg := false;
    } else if c < 0 {
      SubCells(b, a, y);
      neg := true;
    } else {
      ZeroRange(y, 0, y.Length);
      assert y[..] == Zeros(y.Length);
      ValueZeros(y.Length);
      neg := false;
    }
  }

  /**
   * `bigint_self_sub`: a := a - b for a >= b.  The in-place loop reads each
   * cell of a before writing it, so it computes the borrow loop on a's old
   * cells.
   */
  method SelfSub(a: array<Cell>, b: seq<Cell>)
    requires 0 < |b| <= a.Length && Value(b) <= Value(a[..])
    modifies a
    ensures Value(a[..]) == Value(old(a[..])) - Value(b)
  {
    SubCells(a[..], b, a);
  }

  // ----- multiplication -----

  const Cell2Max: nat := 0xffff_ffff_ffff_ffff

  lemma MulMonotone(x: nat, y: nat, m: nat)
    requires x <= m && y <= m
    ensures x * y <= m * m
  {
    assert x * y <= m * y;
    assert m * y <= m * m;
  }

  /** A product of two cells fits in a double cell. */
  lemma ProductBound(x: Cell, y: Cell)
    ensures x * y <= CellMax * CellMax
  {
    MulMonotone(x, y, CellMax);
  }

  lemma MulDistrib(p: int, q: int, r: int, w: int)
    ensures (p + q + r) * w == p * w + q * w + r * w
  {
  }

  lemma MulRearrange(pa: int, aj: int, w: int, bk: int)
    ensures (pa + aj * w) * bk == pa * bk + (aj * bk) * w
  {
    assert (pa + aj * w) * bk == pa * bk + (aj * w) * bk;
    assert (aj * w) * bk == (aj * bk) * w;
  }

  lemma UpdateArith(vt: int, d: int, w: nat, w1: nat)
    requires w1 == Base * w
    ensures Base * (vt + d * w) == Base * vt + d * w1
  {
  }

  /** Overwriting cell i changes the value by the change of the cell times its weight. */
  lemma {:induction false} ValueUpdate(s: seq<Cell>, i: nat, x: Cell)
    requires i < |s|
    ensures Value(s[i := x]) == Value(s) + (x - s[i]) * Weight(i)
  {
    var t := s[i := x];
    if i > 0 {
      assert t[1..] == s[1..][i - 1 := x];
      ValueUpdate(s[1..], i - 1, x);
      UpdateArith(Value(s[1..]), x - s[i], Weight(i - 1), Weight(i));
    } else {
      assert t[1..] == s[1..];
    }
  }

  /**
   * The loop step of a row of `bigint_mul`, on the values involved: the cell
   * sum never exceeds 2^64 - 1, so the source's overflow branch is unreachable,
   * and the invariant of the row is kept.
   */
  lemma RowStepArith(v: int, carry: Cell, wi: nat, ov: int, wk: nat, pa: int, bk: Cell,
                     aj: Cell, yi: Cell, yw: nat, wj: nat)
    requires v + carry * wi == ov + wk * (pa * bk)
    requires wi == wk * wj
    requires yw == aj * bk + (yi + carry)
    ensures yw / Base < Base
    ensures (v + (yw % Base - yi) * wi) + (yw / Base) * (Base * wi) == ov + wk * ((pa + aj * wj) * bk)
  {
    ProductBound(aj, bk);
    SplitCell(yw, wi);
    assert (yw % Base - yi) * wi == (yw % Base) * wi - yi * wi;
    MulDistrib(aj * bk, yi, carry, wi);
    assert wk * ((pa + aj * wj) * bk) == wk * (pa * bk) + (aj * bk) * (wk * wj);
  }

  /** The loop step of a row, on the cell vector. */
  lemma MulRowStep(s: seq<Cell>, i: nat, k: nat, j: nat, os: seq<Cell>, a: seq<Cell>, carry: Cell,
                   bk: Cell, yw: nat)
    requires i == k + j && i < |s| && j < |a|
    requires Value(s) + carry * Weight(i) == Value(os) + Weight(k) * (Value(a[..j]) * bk)
    requires yw == a[j] * bk + (s[i] + carry)
    ensures yw / Base < Base
    ensures Value(s[i := yw % Base]) + (yw / Base) * Weight(i + 1)
         == Value(os) + Weight(k) * (Value(a[..j + 1]) * bk)
  {
    assert a[..j + 1] == a[..j] + [a[j]];
    ValueSnoc(a[..j], a[j]);
    WeightAdd(k, j);
    RowStepArith(Value(s), carry, Weight(i), Value(os), Weight(k), Value(a[..j]), bk, a[j], s[i], yw, Weight(j));
    ValueUpdate(s, i, yw % Base);
  }

  /** The carry out of a row lands in cell k + |a|, which is still zero. */
  lemma MulRowCarry(s: seq<Cell>, os: seq<Cell>, a: seq<Cell>, k: nat, bk: Cell, carry: Cell)
    requires k + |a| < |s| && s[k + |a|] == 0
    requires Value(s) + carry * Weight(k + |a|) == Value(os) + Weight(k) * (Value(a[..|a|]) * bk)
    ensures Value(s[k + |a| := carry]) == Value(os) + Weight(k) * (Value(a) * bk)
  {
    assert a[..|a|] == a;
    ValueUpdate(s, k + |a|, carry);
  }

  /** The inner loop of `bigint_mul` over the cells of a, returning the carry out of the row. */
  method MulRowCells(a: seq<Cell>, bk: Cell, y: array<Cell>, k: nat) returns (carry: Cell)
    requires k + |a| <= y.Length
    modifies y
    ensures Value(y[..]) + carry * Weight(k + |a|) == Value(old(y[..])) + Weight(k) * (Value(a[..|a|]) * bk)
    ensures forall i :: k + |a| <= i < y.Length ==> y[i] == old(y[i])
  {
    carry := 0;
    var j := 0;
    while j < |a|
      invariant 0 <= j <= |a|
      invariant forall i :: k + j <= i < y.Length ==> y[i] == old(y[i])
      invariant Value(y[..]) + carry * Weight(k + j) == Value(old(y[..])) + Weight(k) * (Value(a[..j]) * bk)
    {
      var i := k + j;
      var yw := a[j] * bk + (y[i] + carry);
      MulRowStep(y[..], i, k, j, old(y[..]), a, carry, bk, yw);
      y[i] := yw % Base;
      carry := yw / Base;
      j := j + 1;
    }
  }

  /**
   * One row of `bigint_mul`: y += a * bk * Base^k.  Cell k + |a| is still zero
   * when the row starts, so adding the final carry to it cannot overflow.
   */
  method MulRow(a: seq<Cell>, bk: Cell, y: array<Cell>, k: nat)
    requires k + |a| < y.Length && y[k + |a|] == 0
    modifies y
    ensures Value(y[..]) == Value(old(y[..])) + Weight(k) * (Value(a) * bk)
    ensures forall i :: k + |a| < i < y.Length ==> y[i] == old(y[i])
  {
    var carry := MulRowCells(a, bk, y, k);
    if carry != 0 {
      var top := y[k + |a|];
      MulRowCarry(y[..], old(y[..]), a, k, bk, carry);
      y[k + |a|] := top + carry;
    } else {
      assert a[..|a|] == a;
    }
  }

  lemma ScaleSnoc(p: int, q: int, w: int, x: int)
    ensures p * (q + x * w) == p * q + w * (p * x)
  {
  }

  /** Adding row k keeps the outer invariant of `bigint_mul`. */
  lemma MulRowValue(va: int, b: seq<Cell>, k: nat, v0: int, v1: int)
    requires k < |b| && v0 == va * Value(b[..k]) && v1 == v0 + Weight(k) * (va * b[k])
    ensures v1 == va * Value(b[..k + 1])
  {
    assert b[..k + 1] == b[..k] + [b[k]];
    ValueSnoc(b[..k], b[k]);
    ScaleSnoc(va, Value(b[..k]), Weight(k), b[k]);
  }

  /**
   * `bigint_mul`: y := a * b, schoolbook, one row per cell of b, for
   * y.Length >= |a| + |b|.
   */
  method Mul(a: seq<Cell>, b: seq<Cell>, y: array<Cell>)
    requires y.Length >= |a| + |b|
    modifies y
    ensures Value(y[..]) == Value(a) * Value(b)
  {
    ZeroRange(y, 0, y.Length);
    assert y[..] == Zeros(y.Length);
    ValueZeros(y.Length);
    var k := 0;
    while k < |b|
      invariant 0 <= k <= |b|
      invariant Value(y[..]) == Value(a) * Value(b[..k])
      invariant forall i :: k + |a| <= i < y.Length ==> y[i] == 0
    {
      ghost var v0 := Value(y[..]);
      MulRow(a, b[k], y, k);
      MulRowValue(Value(a), b, k, v0, Value(y[..]));
      k := k + 1;
    }
    assert b[..k] == b;
  }

  /**
   * The overflow test of the final carry in the portable branch of
   * `bigint_mul` (no compiler overflow builtins): the carry is added first,
   * and the test then compares it with the room left above the SUM.
   */
  predicate CarryOverflowAsWritten(y: Cell, carry: Cell) {
    var sum := (y + carry) % Base;
    carry > CellMax - sum
  }

  /** The test the builtin branch performs: the sum does not fit in a cell. */
  predicate CarryOverflow(y: Cell, carry: Cell) {
    y + carry > CellMax
  }

  /**
   * Multiplying the one-cell magnitudes 0xffffffff and 0xffffffff: the row
   * leaves 1 in cell 0 and carries 0xfffffffe into the empty cell 1.  That sum
   * fits, yet the portable test reports an overflow, which panics.  `MulRow`
   * adds the carry with the builtin branch's test, which never fires.
   */
  lemma MulCarryCheckAsWrittenMisfires()
    ensures var yw := CellMax * CellMax + (0 + 0);
      yw % Base == 1 && yw / Base == CellMax - 1 &&
      !CarryOverflow(0, yw / Base) && CarryOverflowAsWritten(0, yw / Base)
  {
  }

  /** Against an empty cell the portable test fires for every carry from 2^31 up. */
  lemma CarryOverflowAsWrittenOnEmptyCell(carry: Cell)
    ensures !CarryOverflow(0, carry)
    ensures CarryOverflowAsWritten(0, carry) <==> carry >= 0x8000_0000
  {
  }

  // ----- shifts -----

  /** 2^n split at the cell boundary: whole cells, then the bits within a cell. */
  lemma ShiftSplit(n: nat)
    ensures Words.Pow2(n) == Weight(n / 32) * Words.Pow2(n % 32)
  {
    WeightIsPow2(n / 32);
    Words.Pow2Add(32 * (n / 32), n % 32);
  }

  /** A bit offset and its complement within a cell multiply to the cell base. */
  lemma BitSplit(bo: nat)
    requires bo <= 32
    ensures Words.Pow2(bo) * Words.Pow2(32 - bo) == Base
  {
    Words.Pow2Add(bo, 32 - bo);
    Words.Pow2Values();
  }

  lemma LessCancel(p: nat, x: int, y: int)
    requires p > 0 && p * x < p * y
    ensures x < y
  {
  }

  lemma MulLess(p: nat, x: int, y: int)
    requires p > 0 && x < y
    ensures p * x < p * y
  {
  }

  lemma MulAtMost(p: nat, x: int, y: int)
    requires x <= y
    ensures p * x <= p * y
  {
  }

  /** Division and remainder are determined by any decomposition n == d * q + r with 0 <= r < d. */
  lemma DivModUnique(n: int, d: nat, q: int, r: int)
    requires d > 0 && n == d * q + r && 0 <= r < d
    ensures n / d == q && n % d == r
  {
    var q', r' := n / d, n % d;
    assert d * q' + r' == d * q + r;
    assert d * (q - q') == r' - r by { assert d * (q - q') == d * q - d * q'; }
    LessCancel(d, q - q', 1);
    LessCancel(d, -1, q - q');
  }

  lemma FactorOut(p: int, qq: int, ai: int, q: int)
    ensures p * ai - (p * qq) * q == p * (ai - qq * q)
  {
  }

  /**
   * The halves of a cell shifted left by 0 < bo < 32 bits (P = 2^bo,
   * P * Q = Base): the low half has its low bo bits clear and the high half is
   * below P, so or-ing the high half of the previous cell into the low half is
   * an addition that stays within a cell.
   */
  lemma ShlHalves(ai: Cell, P: nat, Q: nat, c: nat)
    requires P * Q == Base && P > 0 && c < P
    ensures (ai * P) % Base % P == 0 && (ai * P) % Base + c < Base
    ensures (ai * P) / Base < P && (ai * P) / Base < Base
  {
    MulAtMost(P, 1, Q);
    var s, q, r := ai * P, (ai * P) / Base, (ai * P) % Base;
    var m := ai - Q * q;
    assert r == s - Base * q;
    FactorOut(P, Q, ai, q);
    assert r == P * m;
    LessCancel(P, -1, m);
    LessCancel(P, m, Q);
    DivModUnique(r, P, m, 0);
    MulAtMost(P, m, Q - 1);
    assert P * (Q - 1) == Base - P;
    MulLess(P, ai, Base);
    assert Base * q <= s;
    LessCancel(Base, q, P);
  }

  lemma ShlStepArith(vl: int, c: nat, w: nat, pa: int, P: nat, Q: nat, ai: Cell,
                     vl1: int, w1: nat, pa1: int)
    requires P * Q == Base && P > 0 && c < P
    requires vl + c * w == pa * P
    requires vl1 == vl + ((ai * P) % Base + c) * w && w1 == Base * w && pa1 == pa + ai * w
    ensures (ai * P) % Base % P == 0 && (ai * P) % Base + c < Base && (ai * P) / Base < P
    ensures vl1 + ((ai * P) / Base) * w1 == pa1 * P
  {
    ShlHalves(ai, P, Q, c);
    var s := ai * P;
    SplitCell(s, w);
    assert ((s % Base) + c) * w == (s % Base) * w + c * w;
    assert pa1 * P == pa * P + (ai * P) * w;
  }

  /** The loop step of the left shift, on the cells written so far. */
  lemma ShlStep(low: seq<Cell>, a: seq<Cell>, i: nat, carry: nat, P: nat, Q: nat, x: Cell)
    requires i < |a| && |low| == i
    requires P * Q == Base && P > 0 && carry < P
    requires Value(low) + carry * Weight(i) == Value(a[..i]) * P
    requires x == (a[i] * P) % Base + carry
    ensures (a[i] * P) / Base < P
    ensures Value(low + [x]) + ((a[i] * P) / Base) * Weight(i + 1) == Value(a[..i + 1]) * P
  {
    assert a[..i + 1] == a[..i] + [a[i]];
    ValueSnoc(low, x);
    ValueSnoc(a[..i], a[i]);
    ShlStepArith(Value(low), carry, Weight(i), Value(a[..i]), P, Q, a[i],
                 Value(low + [x]), Weight(i + 1), Value(a[..i + 1]));
  }

  lemma ScaleAssoc(w: int, v: int, p: int)
    ensures w * (v * p) == v * (w * p)
  {
  }

  /** Zero cells below and above a run of value v * 2^bo make v * 2^n, with co = n / 32 cells below. */
  lemma ShiftedValue(ys: seq<Cell>, co: nat, mid: seq<Cell>, top: nat, v: nat, n: nat)
    requires co == n / 32 && ys == Zeros(co) + mid + Zeros(top)
    requires Value(mid) == v * Words.Pow2(n % 32)
    ensures Value(ys) == v * Words.Pow2(n)
  {
    ValueZeroTail(Zeros(co) + mid, top);
    ValueZeroHead(co, mid);
    ShiftSplit(n);
    ScaleAssoc(Weight(co), v, Words.Pow2(n % 32));
  }

  /** The cells `bigint_shl` writes from `a`: y_len_min, one more when the top cell carries out. */
  function ShlLength(a: seq<Cell>, co: nat, bo: nat): nat {
    if bo != 0 && |a| > 0 && (a[|a| - 1] * Words.Pow2(bo)) / Base != 0 then |a| + co + 1 else |a| + co
  }

  /** The carry out of the top cell of a, shifted left by bo bits. */
  function ShlCarry(a: seq<Cell>, bo: nat): nat {
    if |a| == 0 then 0 else (a[|a| - 1] * Words.Pow2(bo)) / Base
  }

  /**
   * The loop of the `bit_offset != 0` branch of `bigint_shl`: cells co ..
   * co + |a| - 1 receive a shifted by bo bits, and the carry out of the top
   * cell is returned.  The cell-by-cell `|` of the shifted halves is written
   * as `+`, which `ShlHalves` shows to be the same on these operands.
   */
  method ShlLoop(a: seq<Cell>, co: nat, bo: nat, y: array<Cell>) returns (carry: Cell)
    requires 0 < bo < 32 && co + |a| <= y.Length
    modifies y
    ensures carry == ShlCarry(a, bo)
    ensures Value(y[co..co + |a|]) + carry * Weight(|a|) == Value(a) * Words.Pow2(bo)
  {
    var P, Q := Words.Pow2(bo), Words.Pow2(32 - bo);
    BitSplit(bo);
    carry := 0;
    var i := 0;
    while i < |a|
      invariant 0 <= i <= |a| && carry < P
      invariant carry == ShlCarry(a[..i], bo)
      invariant Value(y[co..co + i]) + carry * Weight(i) == Value(a[..i]) * P
    {
      var s := a[i] * P;
      ShlHalves(a[i], P, Q, carry);
      var x: Cell, hi: Cell := s % Base + carry, s / Base;
      ghost var low := y[co..co + i];
      ShlStep(low, a, i, carry, P, Q, x);
      ShlCarryStep(a, i, bo);
      y[i + co] := x;
      assert y[co..co + i + 1] == low + [x];
      carry := hi;
      i := i + 1;
    }
    assert a[..i] == a;
  }

  lemma ShlCarryStep(a: seq<Cell>, i: nat, bo: nat)
    requires i < |a|
    ensures ShlCarry(a[..i + 1], bo) == (a[i] * Words.Pow2(bo)) / Base
  {
    assert a[..i + 1][i] == a[i];
  }

  /** The `bit_offset != 0` branch of `bigint_shl`, returning y_len_min. */
  method ShlBits(a: seq<Cell>, co: nat, bo: nat, y: array<Cell>) returns (yLenMin: nat)
    requires 0 < bo < 32 && y.Length >= ShlLength(a, co, bo)
    modifies y
    ensures co <= yLenMin <= y.Length
    ensures Value(y[co..yLenMin]) == Value(a) * Words.Pow2(bo)
  {
    var carry := ShlLoop(a, co, bo, y);
    yLenMin := |a| + co;
    ghost var mid := y[co..yLenMin];
    if carry != 0 {
      y[|a| + co] := carry;
      yLenMin := yLenMin + 1;
      assert y[co..yLenMin] == mid + [carry];
      ValueSnoc(mid, carry);
    }
  }

  /** `bigint_shl`: y := a << n into a vector of at least y_len_min cells (the source's assertion). */
  method Shl(a: seq<Cell>, n: nat, y: array<Cell>)
    requires y.Length >= ShlLength(a, n / 32, n % 32)
    modifies y
    ensures Value(y[..]) == Value(a) * Words.Pow2(n)
  {
    var co, bo := n / 32, n % 32;
    var yLenMin;
    if bo == 0 {
      CopyCells(y, co, a, 0, |a|);
      yLenMin := |a| + co;
      assert y[co..yLenMin] == a;
      assert Words.Pow2(bo) == 1;
    } else {
      yLenMin := ShlBits(a, co, bo, y);
    }
    ghost var mid := y[co..yLenMin];
    ZeroOutside(y, co, yLenMin);
    ShiftedValue(y[..], co, mid, y.Length - yLenMin, Value(a), n);
  }

  /**
   * The halves of a cell shifted left by 32 - bo bits inside a double cell
   * (P = 2^bo, P * Q = Base): the high half is the cell shifted right by bo
   * bits and the low half holds the bo bits shifted out, moved to the top.
   */
  lemma ShrHalves(ai: Cell, P: nat, Q: nat)
    requires P * Q == Base && P > 0
    ensures (ai * Q) / Base == ai / P && (ai * Q) % Base == (ai % P) * Q
    ensures ai / P < Q
  {
    var h, l := ai / P, ai % P;
    assert ai * Q == Base * h + l * Q by {
      assert ai == P * h + l;
      assert ai * Q == (P * h) * Q + l * Q;
      assert (P * h) * Q == (P * Q) * h;
    }
    MulLess(Q, l, P);
    assert l * Q < Base;
    DivModUnique(ai * Q, Base, h, l * Q);
    MulLess(P, ai, Base);
    assert P * h <= ai;
    LessCancel(P, h, Q);
  }

  /** A cell built from a high part below Q and a remainder r < P moved up by Q fits a cell. */
  lemma ShrCellFits(h: nat, r: nat, P: nat, Q: nat)
    requires P * Q == Base && h < Q && r < P
    ensures h + r * Q < Base
  {
    MulAtMost(Q, r, P - 1);
    assert Q * (P - 1) == Base - Q;
  }

  /** One cell of the right-shift loop fits a cell, and so does the carry it leaves. */
  lemma ShrCell(ai: Cell, r: nat, P: nat, Q: nat)
    requires P * Q == Base && P > 0 && r < P
    ensures 0 <= (ai * Q) / Base == ai / P && (ai * Q) / Base + r * Q < Base
    ensures (ai * Q) % Base == (ai % P) * Q
  {
    ShrHalves(ai, P, Q);
    ShrCellFits(ai / P, r, P, Q);
  }

  lemma ShrStepArith(ai: Cell, va: int, vt: int, r: nat, P: nat, Q: nat, cell: nat)
    requires P * Q == Base && P > 0
    requires va == P * vt + r && cell == ai / P + r * Q
    ensures ai + Base * va == P * (cell + Base * vt) + ai % P
  {
    assert ai == P * (ai / P) + ai % P;
    assert Base * va == (P * Q) * (P * vt) + (P * Q) * r;
    assert P * (cell + Base * vt) == P * (ai / P) + P * (r * Q) + P * (Base * vt);
    assert P * (r * Q) == (P * Q) * r;
    assert P * (Base * vt) == (P * Q) * (P * vt);
  }

  /** The loop step of the right shift, on the cell vectors. */
  lemma ShrStep(a: seq<Cell>, i: nat, ys: seq<Cell>, j: nat, hi: nat, r: nat, P: nat, Q: nat)
    requires i < |a| && j < hi <= |ys|
    requires P * Q == Base && P > 0 && r < P
    requires Value(a[i + 1..]) == P * Value(ys[j + 1..hi]) + r
    requires ys[j] == a[i] / P + r * Q
    ensures Value(a[i..]) == P * Value(ys[j..hi]) + a[i] % P
  {
    ValueFrom(a, i);
    assert ys[j..hi][1..] == ys[j + 1..hi];
    assert Value(ys[j..hi]) == ys[j] + Base * Value(ys[j + 1..hi]);
    ShrStepArith(a[i], Value(a[i + 1..]), Value(ys[j + 1..hi]), r, P, Q, ys[j]);
  }

  /** y_len_min of `bigint_shr`: one cell fewer when the top cell shifts out entirely. */
  function ShrLength(a: seq<Cell>, co: nat, bo: nat): nat {
    if co >= |a| then 0
    else if bo != 0 && a[|a| - 1] / Words.Pow2(bo) == 0 then |a| - co - 1
    else |a| - co
  }

  /**
   * The source's assertion in `bigint_shr` that a top cell shifted out
   * entirely is not the only cell (the callers shift by less than the width).
   */
  predicate ShrTopAssertion(a: seq<Cell>, co: nat, bo: nat) {
    co >= |a| || bo == 0 || a[|a| - 1] / Words.Pow2(bo) != 0 || |a| > 1
  }

  /**
   * The loop of the `bit_offset != 0` branch of `bigint_shr`, from cell i0
   * down to cell co, with the cells above i0 already done: y[..y_len_min] :=
   * a[co..] >> bo.  The `|` of the two halves is written as `+`: the bits
   * shifted out of the cell above land in bits the shifted cell leaves clear
   * (`ShrCellFits`).
   */
  method ShrLoop(a: seq<Cell>, co: nat, bo: nat, y: array<Cell>, i0: int, carry0: Cell, ghost r0: nat,
                 yLenMin: nat)
    requires 0 < bo < 32 && co - 1 <= i0 < |a| && i0 + 1 - co <= yLenMin <= y.Length
    requires carry0 == r0 * Words.Pow2(32 - bo) && r0 < Words.Pow2(bo)
    requires Value(a[i0 + 1..]) == Words.Pow2(bo) * Value(y[i0 + 1 - co..yLenMin]) + r0
    modifies y
    ensures Value(y[..yLenMin]) == Value(a[co..]) / Words.Pow2(bo)
  {
    var P, Q := Words.Pow2(bo), Words.Pow2(32 - bo);
    BitSplit(bo);
    var carry, i := carry0, i0;
    ghost var r: nat := r0;
    // `i != cell_offset - 1` on unsigned integers: i never goes below cell_offset - 1.
    while i >= co as int
      invariant co - 1 <= i < |a| && i + 1 - co <= yLenMin
      invariant carry == r * Q && r < P
      invariant Value(a[i + 1..]) == P * Value(y[i + 1 - co..yLenMin]) + r
      decreases i
    {
      ShrCell(a[i], r, P, Q);
      var s := a[i] * Q;
      y[i - co] := s / Base + carry;
      ShrStep(a, i, y[..], i - co, yLenMin, r, P, Q);
      assert y[..][i - co..yLenMin] == y[i - co..yLenMin];
      carry := s % Base;
      r := a[i] % P;
      i := i - 1;
    }
    assert i + 1 - co == 0 && y[0..yLenMin] == y[..yLenMin];
    DivModUnique(Value(a[co..]), P, Value(y[..yLenMin]), r);
  }

  /** The `bit_offset != 0` branch of `bigint_shr`, returning y_len_min. */
  method ShrBits(a: seq<Cell>, co: nat, bo: nat, y: array<Cell>) returns (yLenMin: nat)
    requires 0 < bo < 32 && co < |a|
    requires ShrTopAssertion(a, co, bo) && y.Length >= ShrLength(a, co, bo)
    modifies y
    ensures yLenMin == ShrLength(a, co, bo)
    ensures Value(y[..yLenMin]) == Value(a[co..]) / Words.Pow2(bo)
  {
    var P, Q := Words.Pow2(bo), Words.Pow2(32 - bo);
    BitSplit(bo);
    var i := |a| - 1;
    yLenMin := |a| - co;
    if a[i] / P == 0 {
      // The top cell shifts out entirely: its bits only feed the cell below.
      ShrHalves(a[i], P, Q);
      var carry: Cell := (a[i] * Q) % Base;
      yLenMin := yLenMin - 1;
      assert a[i..] == [a[i]];
      ShrLoop(a, co, bo, y, i - 1, carry, a[i], yLenMin);
    } else {
      ShrLoop(a, co, bo, y, i, 0, 0, yLenMin);
    }
  }

  /** Shifting right by at least the whole vector leaves zero. */
  lemma ShrAll(a: seq<Cell>, n: nat)
    requires n / 32 >= |a|
    ensures Value(a) / Words.Pow2(n) == 0
  {
    ValueBound(a);
    WeightMonotone(|a|, n / 32);
    ShiftSplit(n);
    MulAtMost(Weight(n / 32), 1, Words.Pow2(n % 32));
    DivModUnique(Value(a), Words.Pow2(n), 0, Value(a));
  }

  lemma ShrArith(lo: nat, w: nat, v: nat, P: nat, q: nat, r: nat)
    requires lo < w && P > 0 && v == P * q + r && r < P
    ensures lo + w * v == (w * P) * q + (w * r + lo) && w * r + lo < w * P
  {
    MulAtMost(w, r + 1, P);
  }

  lemma ShrDiv(va: nat, lo: nat, w: nat, v: nat, P: nat, pn: nat)
    requires va == lo + w * v && lo < w && P > 0 && pn == w * P
    ensures va / pn == v / P
  {
    ShrArith(lo, w, v, P, v / P, v % P);
    DivModUnique(va, pn, v / P, w * (v % P) + lo);
  }

  /** The whole cells shifted out are below the weight of cell co, so only a[co..] matters. */
  lemma ShrValue(a: seq<Cell>, n: nat)
    requires n / 32 <= |a|
    ensures Value(a) / Words.Pow2(n) == Value(a[n / 32..]) / Words.Pow2(n % 32)
  {
    var co := n / 32;
    ValueSplit(a, co);
    ValueBound(a[..co]);
    ShiftSplit(n);
    ShrDiv(Value(a), Value(a[..co]), Weight(co), Value(a[co..]), Words.Pow2(n % 32), Words.Pow2(n));
  }

  /** The low y_len_min cells of `bigint_shr`: a copy when the shift is whole cells. */
  method ShrCells(a: seq<Cell>, co: nat, bo: nat, y: array<Cell>) returns (yLenMin: nat)
    requires bo < 32 && co < |a|
    requires ShrTopAssertion(a, co, bo) && y.Length >= ShrLength(a, co, bo)
    modifies y
    ensures yLenMin == ShrLength(a, co, bo)
    ensures Value(y[..yLenMin]) == Value(a[co..]) / Words.Pow2(bo)
  {
    if bo == 0 {
      yLenMin := |a| - co;
      CopyCells(y, 0, a, co, yLenMin);
      assert y[..yLenMin] == a[co..];
      assert Words.Pow2(bo) == 1;
    } else {
      yLenMin := ShrBits(a, co, bo, y);
    }
  }

  /**
   * `bigint_shr`: y := a >> n, for a vector of at least y_len_min cells and
   * the source's assertion about a top cell that shifts out entirely.
   */
  method Shr(a: seq<Cell>, n: nat, y: array<Cell>)
    requires ShrTopAssertion(a, n / 32, n % 32) && y.Length >= ShrLength(a, n / 32, n % 32)
    modifies y
    ensures Value(y[..]) == Value(a) / Words.Pow2(n)
  {
    var co, bo := n / 32, n % 32;
    if co >= |a| {
      ZeroRange(y, 0, y.Length);
      assert y[..] == Zeros(y.Length);
      ValueZeros(y.Length);
      ShrAll(a, n);
      return;
    }
    var yLenMin := ShrCells(a, co, bo, y);
    ghost var mid := y[..yLenMin];
    ZeroRange(y, yLenMin, y.Length);
    assert y[..] == mid + Zeros(y.Length - yLenMin);
    ValueZeroTail(mid, y.Length - yLenMin);
    ShrValue(a, n);
  }

  // ----- two's complement and truncation -----

  lemma ComplementArith(lo: int, carry: nat, w: nat, olo: int, v: Cell, x: nat, lo1: int, w1: nat, olo1: int)
    requires carry <= 1 && lo + carry * w == w - olo && x == CellMax - v + carry
    requires lo1 == lo + (x % Base) * w && w1 == Base * w && olo1 == olo + v * w
    ensures x / Base <= 1
    ensures lo1 + (x / Base) * w1 == w1 - olo1
  {
    SplitCell(x, w);
    assert x * w == (CellMax - v) * w + carry * w;
    assert (CellMax - v) * w == Base * w - w - v * w;
  }

  /** One step of the complement loop, on the cells done so far. */
  lemma ComplementStep(low: seq<Cell>, olow: seq<Cell>, carry: nat, v: Cell, x: nat)
    requires |low| == |olow| && carry <= 1 && x == CellMax - v + carry
    requires Value(low) + carry * Weight(|low|) == Weight(|low|) - Value(olow)
    ensures x / Base <= 1
    ensures Value(low + [x % Base]) + (x / Base) * Weight(|low| + 1) == Weight(|low| + 1) - Value(olow + [v])
  {
    ValueSnoc(low, x % Base);
    ValueSnoc(olow, v);
    ComplementArith(Value(low), carry, Weight(|low|), Value(olow), v, x,
                    Value(low + [x % Base]), Weight(|low| + 1), Value(olow + [v]));
  }

  /** With a non-zero magnitude the carry out of the top cell is zero. */
  lemma ComplementNoCarry(vy: nat, carry: nat, w: nat, vo: nat)
    requires carry <= 1 && vy + carry * w == w - vo && vo > 0
    ensures carry == 0 && vy == w - vo
  {
  }

  /**
   * `bigint_complement`, as every caller uses it, in place: a := 2^(32n) - a
   * over the n cells of a (~a + 1).  The source asserts that no carry is left,
   * which holds exactly when the magnitude is not zero.
   */
  method Complement(a: array<Cell>)
    requires Value(a[..]) != 0
    modifies a
    ensures Value(a[..]) == Weight(a.Length) - Value(old(a[..]))
  {
    var carry: nat := 1;
    var i := 0;
    while i < a.Length
      invariant 0 <= i <= a.Length && carry <= 1
      invariant forall k :: i <= k < a.Length ==> a[k] == old(a[k])
      invariant Value(a[..i]) + carry * Weight(i) == Weight(i) - Value(old(a[..i]))
    {
      var v := a[i];
      var x: nat := CellMax - v + carry;
      ghost var low, olow := a[..i], old(a[..i]);
      ComplementStep(low, olow, carry, v, x);
      assert old(a[..i + 1]) == olow + [v];
      a[i] := x % Base;
      assert a[..i + 1] == low + [x % Base];
      carry := x / Base;
      i := i + 1;
    }
    assert a[..] == a[..i] && old(a[..]) == old(a[..i]);
    ComplementNoCarry(Value(a[..]), carry, Weight(i), Value(old(a[..])));
  }

  lemma ModAtMost(x: nat, m: nat)
    requires m > 0
    ensures x % m <= x
  {
    assert x == m * (x / m) + x % m;
    MulAtMost(m, 0, x / m);
  }

  lemma CellPow2()
    ensures Words.Pow2(32) == Base
  {
    Words.Pow2Values();
  }

  /** The number of bits `bigint_trunc` keeps in cell n / 32, as written: n - n / 32. */
  function TruncBitCountAsWritten(n: nat): nat {
    n - n / 32
  }

  /**
   * Where `bigint_trunc` can run: the cells it copies exist and the mask
   * shift `32 - bit_count` is not negative.
   */
  predicate TruncDefined(a: seq<Cell>, n: nat, len: nat) {
    var cc, bc := n / 32, TruncBitCountAsWritten(n);
    if bc != 0 then cc < |a| && cc < len && bc <= 32 else cc <= |a| && cc <= len
  }

  /**
   * The cells `bigint_trunc` leaves, as written: the first n / 32 cells of a,
   * then cell n / 32 masked to its low bit_count bits (`& (CELL_MAX >> (32 -
   * bit_count))`, that is `% 2^bit_count`), then zeros.
   */
  function TruncCellsAsWritten(a: seq<Cell>, n: nat, len: nat): (y: seq<Cell>)
    requires TruncDefined(a, n, len)
    ensures |y| == len
  {
    var cc, bc := n / 32, TruncBitCountAsWritten(n);
    if bc != 0 then
      ModAtMost(a[cc], Words.Pow2(bc));
      a[..cc] + [a[cc] % Words.Pow2(bc)] + Zeros(len - cc - 1)
    else a[..cc] + Zeros(len - cc)
  }

  /** `bigint_trunc`, as written (the bit count is `n - cell_count`). */
  method TruncAsWritten(a: seq<Cell>, n: nat, y: array<Cell>)
    requires TruncDefined(a, n, y.Length)
    modifies y
    ensures y[..] == TruncCellsAsWritten(a, n, y.Length)
  {
    var cc, bc := n / 32, TruncBitCountAsWritten(n);
    if bc != 0 {
      var copyCount := cc + 1;
      CopyCells(y, 0, a, 0, copyCount);
      ZeroRange(y, copyCount, y.Length);
      ModAtMost(y[cc], Words.Pow2(bc));
      y[cc] := y[cc] % Words.Pow2(bc);
      assert y[..] == a[..cc] + [a[cc] % Words.Pow2(bc)] + Zeros(y.Length - cc - 1);
    } else {
      CopyCells(y, 0, a, 0, cc);
      ZeroRange(y, cc, y.Length);
      assert y[..] == a[..cc] + Zeros(y.Length - cc);
    }
  }

  /**
   * Truncating 2^32 (cells [0, 1]) to 32 bits should give 0, but with the bit
   * count computed as n - n / 32 = 31 the second cell is kept: the result is
   * still 2^32.
   */
  lemma TruncAsWrittenKeepsHighCell()
    ensures TruncDefined([0, 1], 32, 2)
    ensures Value(TruncCellsAsWritten([0, 1], 32, 2)) == Base
    ensures Value([0, 1]) % Words.Pow2(32) == 0
  {
    TruncCellsOfTwoCells();
    ValueOfTwoCells();
    CellPow2();
  }

  lemma TruncCellsOfTwoCells()
    ensures TruncDefined([0, 1], 32, 2) && TruncCellsAsWritten([0, 1], 32, 2) == [0, 1]
  {
    var a: seq<Cell> := [0, 1];
    var p := Words.Pow2(31);
    assert TruncBitCountAsWritten(32) == 31;
    Words.Pow2Monotone(1, 31);
    assert Words.Pow2(1) == 2;
    DivModUnique(1, p, 0, 1);
    assert a[..1] == [0] && Zeros(0) == [];
    assert TruncCellsAsWritten(a, 32, 2) == [0] + [a[1] % p] + [];
  }

  /** Where the corrected truncation can run: the cells it copies exist in both vectors. */
  predicate TruncFits(a: seq<Cell>, n: nat, len: nat) {
    var cc := n / 32;
    if n % 32 != 0 then cc < |a| && cc < len else cc <= |a| && cc <= len
  }

  /**
   * The cells of the corrected truncation: the bit count within cell n / 32
   * is `n % 32`, so the low n bits of a are kept and every bit above is zero.
   */
  function TruncCells(a: seq<Cell>, n: nat, len: nat): (y: seq<Cell>)
    requires TruncFits(a, n, len)
    ensures |y| == len
  {
    var cc, bc := n / 32, n % 32;
    if bc != 0 then
      ModAtMost(a[cc], Words.Pow2(bc));
      a[..cc] + [a[cc] % Words.Pow2(bc)] + Zeros(len - cc - 1)
    else a[..cc] + Zeros(len - cc)
  }

  /** `bigint_trunc` with the bit count `n % 32`. */
  method Trunc(a: seq<Cell>, n: nat, y: array<Cell>)
    requires TruncFits(a, n, y.Length)
    modifies y
    ensures y[..] == TruncCells(a, n, y.Length)
    ensures Value(y[..]) == Value(a) % Words.Pow2(n)
  {
    var cc, bc := n / 32, n % 32;
    if bc != 0 {
      var copyCount := cc + 1;
      CopyCells(y, 0, a, 0, copyCount);
      ZeroRange(y, copyCount, y.Length);
      ModAtMost(y[cc], Words.Pow2(bc));
      y[cc] := y[cc] % Words.Pow2(bc);
      assert y[..] == a[..cc] + [a[cc] % Words.Pow2(bc)] + Zeros(y.Length - cc - 1);
    } else {
      CopyCells(y, 0, a, 0, cc);
      ZeroRange(y, cc, y.Length);
      assert y[..] == a[..cc] + Zeros(y.Length - cc);
    }
    TruncValue(a, n, y.Length);
  }

  /** The corrected truncation keeps the value modulo 2^n. */
  lemma TruncValue(a: seq<Cell>, n: nat, len: nat)
    requires TruncFits(a, n, len)
    ensures Value(TruncCells(a, n, len)) == Value(a) % Words.Pow2(n)
  {
    ShiftSplit(n);
    ValueSplit(a, n / 32);
    ValueBound(a[..n / 32]);
    if n % 32 != 0 {
      TruncValuePart(a, n, len);
    } else {
      var cc := n / 32;
      ValueZeroTail(a[..cc], len - cc);
      DivModUnique(Value(a), Weight(cc), Value(a[cc..]), Value(a[..cc]));
    }
  }

  lemma TruncValuePart(a: seq<Cell>, n: nat, len: nat)
    requires TruncFits(a, n, len) && n % 32 != 0
    requires Words.Pow2(n) == Weight(n / 32) * Words.Pow2(n % 32)
    requires Value(a) == Value(a[..n / 32]) + Weight(n / 32) * Value(a[n / 32..])
    requires Value(a[..n / 32]) < Weight(n / 32)
    ensures Value(TruncCells(a, n, len)) == Value(a) % Words.Pow2(n)
  {
    var cc, bc := n / 32, n % 32;
    TruncCellsPart(a, n, len);
    ValueFrom(a, cc);
    BitSplit(bc);
    TruncArith(Value(a), Words.Pow2(n), Value(a[..cc]), Weight(cc), Value(a[cc..]), a[cc], Words.Pow2(bc), Words.Pow2(32 - bc), Value(a[cc + 1..]));
  }

  lemma TruncCellsPart(a: seq<Cell>, n: nat, len: nat)
    requires TruncFits(a, n, len) && n % 32 != 0
    ensures Value(TruncCells(a, n, len)) == Value(a[..n / 32]) + (a[n / 32] % Words.Pow2(n % 32)) * Weight(n / 32)
  {
    var cc := n / 32;
    var p := Words.Pow2(n % 32);
    ModAtMost(a[cc], p);
    var x: Cell := a[cc] % p;
    assert TruncCells(a, n, len) == a[..cc] + [x] + Zeros(len - cc - 1);
    ValueZeroTail(a[..cc] + [x], len - cc - 1);
    ValueSnoc(a[..cc], x);
  }

  /** The low part of lo + w * (x + Base * r) modulo w * p, for p dividing the cell base. */
  lemma TruncArith(total: nat, m: nat, lo: nat, w: nat, v: nat, x: nat, p: nat, q: nat, r: nat)
    requires lo < w && p > 0 && p * q == Base
    requires total == lo + w * v && v == x + Base * r && m == w * p
    ensures total % m == lo + (x % p) * w
  {
    var k := x / p + q * r;
    assert x == p * (x / p) + x % p;
    assert lo + w * (x + Base * r) == (w * p) * k + (lo + (x % p) * w) by {
      assert w * (x + Base * r) == w * (p * (x / p)) + w * (x % p) + w * (p * q * r);
      assert w * (p * (x / p)) + w * (p * q * r) == (w * p) * k;
    }
    MulAtMost(w, x % p, p - 1);
    assert lo + (x % p) * w < w * p;
    DivModUnique(lo + w * (x + Base * r), w * p, k, lo + (x % p) * w);
  }

  /** Truncating 2^32 to 32 bits with the corrected bit count gives 0. */
  lemma TruncTwoCellsIsZero()
    ensures TruncFits([0, 1], 32, 2) && Value(TruncCells([0, 1], 32, 2)) == 0
  {
    TruncValue([0, 1], 32, 2);
    ValueOfTwoCells();
    CellPow2();
  }

  lemma ValueOfTwoCells()
    ensures Value([0, 1]) == Base
  {
    ValueSnoc([0], 1);
    assert Value([0]) == 0 by { assert [0][1..] == []; }
    assert [0] + [1] == [0, 1];
  }
}
