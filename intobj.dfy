/**
 * Int objects (core/intobj.c): a sign and a vector of 32-bit cells holding
 * the magnitude, canonicalised to a small int whenever the value fits one;
 * conversion from and to text in bases 2 to 36.
 *
 * An `Int` object's cell vector is an array whose length is the object's
 * capacity (`int_obj_cells_capacity`); `cellCount` says how many of them
 * are in use.  A value of the runtime that is an integer is an `IntRef`:
 * either a small int or a reference to an `Int` object.
 */
module IntObj {
  import opened Wrappers
  import opened BigInt
  import Words
  import SmallInt
  import Numerals
  import Algorithm
  import Fsutil

  /** `INT_OBJ_CELL_COUNT_MAX`: the cell count is a `uint16_t`. */
  const CellCountMax: nat := 0xffff

  /** The integer a sign and a magnitude denote. */
  function SignedValue(negative: bool, mag: nat): int {
    if negative then -(mag as int) else mag
  }

  /** `struct zis_int_obj`. */
  class Int {
    var cells: array<Cell>
    var cellCount: nat
    var negative: bool

    /** `int_obj_alloc`: `n` cells, not initialised. */
    constructor (n: nat, negative: bool)
      requires n <= CellCountMax
      ensures this.negative == negative && cellCount == n
      ensures fresh(cells) && cells.Length == n
    {
      cells := new Cell[n];
      cellCount := n;
      this.negative := negative;
    }

    /** At least one cell in use, within the capacity and the `uint16_t` count. */
    predicate Valid()
      reads this
    {
      0 < cellCount <= cells.Length && cellCount <= CellCountMax
    }

    /** The cells in use. */
    function Cells(): seq<Cell>
      reads this, cells
      requires cellCount <= cells.Length
    {
      cells[..cellCount]
    }

    /** The integer the object denotes. */
    function Signed(): int
      reads this, cells
      requires cellCount <= cells.Length
    {
      SignedValue(negative, Value(Cells()))
    }
  }

  /** A runtime integer: a small int, or a reference to an `Int` object. */
  datatype IntRef = Small(v: int) | Big(obj: Int)

  // ----- canonical form -----

  /**
   * The number of cells left when leading zero cells are dropped (the first
   * loop of `int_obj_shrink`); zero for a vector of zeros.
   */
  function Trim(s: seq<Cell>): (n: nat)
    ensures n <= |s|
    ensures Value(s[..n]) == Value(s)
    ensures n == 0 || s[n - 1] != 0
  {
    if s == [] then 0
    else if s[|s| - 1] != 0 then
      assert s[..|s|] == s;
      |s|
    else
      var init := s[..|s| - 1];
      assert s == init + [0];
      ValueSnoc(init, 0);
      var n := Trim(init);
      assert init[..n] == s[..n];
      n
  }

  lemma TrimZero(s: seq<Cell>)
    requires Trim(s) == 0
    ensures Value(s) == 0
  {
    assert s[..0] == [];
  }

  lemma ValueOneCell(m: seq<Cell>)
    requires |m| == 1
    ensures Value(m) == m[0]
  {
    assert m[1..] == [];
  }

  lemma ValueTwoCells(m: seq<Cell>)
    requires |m| == 2
    ensures Value(m) == m[0] + Base * m[1]
  {
    ValueOneCell(m[1..]);
  }

  /** The largest magnitude a small int of this sign can have: `ZIS_SMALLINT_MAX`, or `-ZIS_SMALLINT_MIN`. */
  function SmallLimit(w: Words.Width, negative: bool): (l: nat)
    ensures l > 0
  {
    if negative then -SmallInt.Min(w) else SmallInt.Max(w)
  }

  lemma SmallLimitInRange(w: Words.Width, negative: bool, mag: nat)
    ensures SmallInt.InRange(w, SignedValue(negative, mag)) <==> mag <= SmallLimit(w, negative)
  {
  }

  /**
   * Whether `int_obj_shrink` returns a small int for a normalised magnitude,
   * as its branches decide: on a 64-bit target one cell always fits and two
   * cells are compared with the limit; on a 32-bit target only one cell can
   * fit and it is compared with the limit.
   */
  predicate ShrinksToSmall(w: Words.Width, negative: bool, m: seq<Cell>)
    requires Normal(m)
  {
    if |m| == 1 then w == 64 || m[0] <= SmallLimit(w, negative)
    else if |m| == 2 && w == 64 then m[1] * Base + m[0] <= SmallLimit(w, negative)
    else false
  }

  /** The branches of `int_obj_shrink` return a small int exactly when the value is in small-int range. */
  lemma ShrinksToSmallIff(w: Words.Width, negative: bool, m: seq<Cell>)
    requires Normal(m)
    ensures ShrinksToSmall(w, negative, m) <==> SmallInt.InRange(w, SignedValue(negative, Value(m)))
  {
    SmallLimitInRange(w, negative, Value(m));
    if |m| == 1 {
      ValueOneCell(m);
    } else if |m| == 2 {
      ValueTwoCells(m);
    } else {
      ValueTop(m);
      WeightMonotone(2, |m| - 1);
      assert Weight(2) == Base * Base;
    }
  }

  /** The first loop of `int_obj_shrink`: the cells left once leading zero cells are dropped, 0 when all are zero. */
  method TrimCount(x: Int) returns (cc: nat)
    requires x.Valid()
    ensures cc == Trim(x.Cells())
  {
    ghost var s := x.Cells();
    cc := x.cellCount;
    while x.cells[cc - 1] == 0
      invariant 1 <= cc <= x.cellCount
      invariant Trim(x.cells[..cc]) == Trim(s)
      decreases cc
    {
      if cc == 1 {
        assert x.cells[..1][..0] == x.cells[..0];
        return 0;
      }
      assert x.cells[..cc][..cc - 1] == x.cells[..cc - 1];
      cc := cc - 1;
    }
    assert x.cells[..cc][..cc] == x.cells[..cc];
  }

  /**
   * The small-int branches of `int_obj_shrink` on a normalised magnitude:
   * the small int, or nothing when the value does not fit one.
   */
  method ToSmall(w: Words.Width, negative: bool, m: seq<Cell>) returns (r: Option<int>)
    requires Normal(m)
    ensures r.Some? <==> SmallInt.InRange(w, SignedValue(negative, Value(m)))
    ensures r.Some? ==> r.value == SignedValue(negative, Value(m))
  {
    ShrinksToSmallIff(w, negative, m);
    r := None;
    if |m| == 1 {
      ValueOneCell(m);
      if w == 64 || m[0] <= SmallLimit(w, negative) {
        var v: int := m[0];
        if negative {
          v := -v;
        }
        r := Some(v);
      }
    } else if |m| == 2 && w == 64 {
      ValueTwoCells(m);
      var c01 := m[1] * Base + m[0];
      if c01 <= SmallLimit(w, negative) {
        var v: int := c01;
        if negative {
          v := -v;
        }
        r := Some(v);
      }
    }
  }

  /**
   * `int_obj_shrink`: drops the leading zero cells of x (updating its cell
   * count), then returns a small int when the value fits one, a fresh
   * object of exactly the cells in use when four or more cells would be
   * unused, and x itself otherwise.  A vector of zeros gives the small int
   * 0 and leaves the cell count as it was.
   */
  method Shrink(w: Words.Width, x: Int) returns (r: IntRef)
    requires x.Valid()
    modifies x
    ensures x.cells == old(x.cells) && x.negative == old(x.negative)
    ensures var n := Trim(old(x.Cells())); x.cellCount == if n == 0 then old(x.cellCount) else n
    ensures r.Small? <==> SmallInt.InRange(w, old(x.Signed()))
    ensures r.Small? ==> r.v == old(x.Signed())
    ensures r.Big? ==> r.obj.Valid() && Normal(r.obj.Cells()) && r.obj.Signed() == old(x.Signed())
    ensures r.Big? ==> (r.obj == x <==> x.cells.Length - x.cellCount < 4)
    ensures r.Big? && r.obj != x ==> fresh(r.obj) && fresh(r.obj.cells) && r.obj.cells.Length == r.obj.cellCount
  {
    ghost var s := x.Cells();
    var cc := TrimCount(x);
    if cc == 0 {
      TrimZero(s);
      return Small(0);
    }
    var m := x.cells[..cc];
    assert s[..cc] == m;
    assert Normal(m) && Value(m) == Value(s);
    x.cellCount := cc;
    var small := ToSmall(w, x.negative, m);
    if small.Some? {
      return Small(small.value);
    }
    if x.cells.Length - cc >= 4 {
      var obj := new Int(cc, x.negative);
      CopyCells(obj.cells, 0, m, 0, cc);
      assert obj.Cells() == m;
      return Big(obj);
    }
    assert x.Cells() == m;
    return Big(x);
  }

  /**
   * `zis_int_obj_or_smallint`: a small int when the `int64_t` value fits,
   * otherwise a new object of one cell, or two when the magnitude does not
   * fit one cell.
   */
  method OrSmallint(w: Words.Width, val: int) returns (r: IntRef)
    requires -0x8000_0000_0000_0000 <= val < 0x8000_0000_0000_0000
    ensures r.Small? <==> SmallInt.InRange(w, val)
    ensures r.Small? ==> r.v == val
    ensures r.Big? ==> fresh(r.obj) && r.obj.Valid() && Normal(r.obj.Cells()) && r.obj.Signed() == val
  {
    if SmallInt.InRange(w, val) {
      return Small(val);
    }
    var neg := val < 0;
    var abs: nat := if neg then -val else val;
    var obj: Int;
    if abs <= CellMax {
      obj := new Int(1, neg);
      obj.cells[0] := abs;
      ValueOneCell(obj.cells[..1]);
    } else {
      obj := new Int(2, neg);
      obj.cells[0] := abs % Base;
      obj.cells[1] := abs / Base;
      ValueTwoCells(obj.cells[..2]);
    }
    assert obj.Cells() == obj.cells[..obj.cellCount];
    return Big(obj);
  }

  // ----- text -----

  /** The length of a leading '-'. */
  function SignLength(s: string): (n: nat)
    ensures n <= |s|
  {
    if |s| > 0 && s[0] == '-' then 1 else 0
  }

  /** Where the scan of `zis_int_obj_or_smallint_s` stops: the first character from i that is neither a digit nor '_'. */
  function ScanEnd(s: string, i: nat, base: Numerals.Base): (e: nat)
    requires i <= |s|
    ensures i <= e <= |s|
    decreases |s| - i
  {
    if i == |s| then i
    else if (0 <= Numerals.CharDigit(s[i]) < base) || s[i] == '_' then ScanEnd(s, i + 1, base)
    else i
  }

  /** The scan passes only digits and separators, and stops at the end or at another character. */
  lemma {:induction false} ScanEndChars(s: string, i: nat, base: Numerals.Base)
    requires i <= |s|
    ensures forall k :: i <= k < ScanEnd(s, i, base) ==> 0 <= Numerals.CharDigit(s[k]) < base || s[k] == '_'
    ensures ScanEnd(s, i, base) < |s| ==> !(0 <= Numerals.CharDigit(s[ScanEnd(s, i, base)]) < base) && s[ScanEnd(s, i, base)] != '_'
    decreases |s| - i
  {
    if i < |s| && ((0 <= Numerals.CharDigit(s[i]) < base) || s[i] == '_') {
      ScanEndChars(s, i + 1, base);
    }
  }

  /** The digits of t, in order, without the separators. */
  function DigitsOf(t: string, base: Numerals.Base): (ds: string)
    ensures |ds| <= |t|
    ensures forall k :: 0 <= k < |ds| ==> 0 <= Numerals.CharDigit(ds[k]) < base
  {
    if t == [] then []
    else DigitsOf(t[..|t| - 1], base) + (if 0 <= Numerals.CharDigit(t[|t| - 1]) < base then [t[|t| - 1]] else [])
  }

  lemma {:induction false} DigitsOfConcat(a: string, b: string, base: Numerals.Base)
    ensures DigitsOf(a + b, base) == DigitsOf(a, base) + DigitsOf(b, base)
  {
    if b == [] {
      assert a + b == a;
    } else {
      var b0 := b[..|b| - 1];
      assert (a + b)[..|a + b| - 1] == a + b0;
      DigitsOfConcat(a, b0, base);
    }
  }

  /** Extending the scanned text by one character. */
  lemma DigitsOfSnoc(s: string, i: nat, j: nat, base: Numerals.Base)
    requires i <= j < |s|
    ensures DigitsOf(s[i..j + 1], base) == DigitsOf(s[i..j], base) + (if 0 <= Numerals.CharDigit(s[j]) < base then [s[j]] else [])
  {
    assert s[i..j + 1][..j - i] == s[i..j];
  }

  /**
   * What `zis_int_obj_or_smallint_s` reads from s: an optional '-', then
   * digits and '_' up to the first other character.  With no digit the
   * result is nothing and the end is just past the sign; otherwise the
   * value of the digits, negated after a '-', and the end of the scan.
   */
  function ParseSpec(s: string, base: Numerals.Base): (r: (Option<int>, nat))
    ensures r.0.Some? ==> SignLength(s) < r.1 <= |s|
  {
    var start := SignLength(s);
    var e := ScanEnd(s, start, base);
    var ds := DigitsOf(s[start..e], base);
    if ds == [] then (None, start)
    else (Some(SignedValue(start == 1, Numerals.TextValue(ds, base))), e)
  }

  /** The least k with m <= 2^k, the exact value of `ceil(log2 m)`. */
  function BitsFor(m: nat): (k: nat)
    ensures m <= Words.Pow2(k)
    ensures k > 0 ==> Words.Pow2(k - 1) < m
  {
    if m <= 1 then 0 else 1 + BitsFor((m + 1) / 2)
  }

  /**
   * `num_width`: the bits that `digit_count` digits of the base may need,
   * `ceil(digit_count * log2(base))`, computed exactly.
   */
  function NumWidth(digitCount: nat, base: Numerals.Base): nat {
    BitsFor(Algorithm.Pow(base, digitCount))
  }

  /** The cell count of the big-integer path, `round_up(num_width, 32) / 32`. */
  function ParseCellCount(digitCount: nat, base: Numerals.Base): nat {
    (NumWidth(digitCount, base) + 31) / 32
  }

  lemma DigitStep(v: nat, d: int, base: nat, p: nat)
    requires v < p && 0 <= d < base
    ensures v * base + d < base * p
  {
    MulAtMost(base, v + 1, p);
  }

  /** A value of k digits is below base^k. */
  lemma {:induction false} TextValueBound(ds: string, base: Numerals.Base)
    requires forall k :: 0 <= k < |ds| ==> 0 <= Numerals.CharDigit(ds[k]) < base
    ensures Numerals.TextValue(ds, base) < Algorithm.Pow(base, |ds|)
  {
    if ds != [] {
      var init := ds[..|ds| - 1];
      TextValueBound(init, base);
      DigitStep(Numerals.TextValue(init, base), Numerals.CharDigit(ds[|ds| - 1]), base, Algorithm.Pow(base, |init|));
    }
  }

  lemma PowMonotone(b: nat, i: nat, j: nat)
    requires b >= 1 && i <= j
    ensures Algorithm.Pow(b, i) <= Algorithm.Pow(b, j)
  {
    Algorithm.PowAdd(b, i, j - i);
    Algorithm.PowPositive(b, j - i);
    MulAtMost(Algorithm.Pow(b, i), 1, Algorithm.Pow(b, j - i));
  }

  lemma TextValueSnoc(ds: string, c: char, base: Numerals.Base)
    requires forall k :: 0 <= k < |ds| ==> 0 <= Numerals.CharDigit(ds[k]) < base
    requires 0 <= Numerals.CharDigit(c) < base
    ensures Numerals.TextValue(ds + [c], base) == Numerals.TextValue(ds, base) * base + Numerals.CharDigit(c)
  {
    assert (ds + [c])[..|ds|] == ds;
  }

  /** `ZIS_SMALLINT_MAX + 1` is 2^(w - 2): a magnitude of at most w - 2 bits is a small int. */
  lemma SmallMaxPow2(w: Words.Width)
    ensures Words.Pow2(w - 2) == SmallInt.Max(w) + 1
  {
    Words.Pow2Values();
    Words.Pow2Add(w - 2, 2);
    assert Words.Pow2(2) == 4;
  }

  /** The digits of a prefix of the scanned text are a prefix of its digits. */
  lemma DigitsOfPrefix(s: string, start: nat, p: nat, end: nat, base: Numerals.Base)
    requires start <= p <= end <= |s|
    ensures |DigitsOf(s[start..p], base)| <= |DigitsOf(s[start..end], base)|
  {
    assert s[start..end] == s[start..p] + s[p..end];
    DigitsOfConcat(s[start..p], s[p..end], base);
  }

  /** A carry that would overflow a bound it stays under is zero. */
  lemma NoCarry(v: nat, carry: nat, weight: nat, x: nat)
    requires v + carry * weight == x < weight
    ensures carry == 0
  {
    if carry > 0 {
      MulAtMost(weight, 1, carry);
    }
  }

  /**
   * The scan loop of `zis_int_obj_or_smallint_s`: from `start`, count the
   * digits and skip the '_' separators up to the first other character.
   */
  method ScanDigits(s: string, start: nat, base: Numerals.Base) returns (end: nat, digitCount: nat)
    requires start <= |s|
    ensures end == ScanEnd(s, start, base)
    ensures digitCount == |DigitsOf(s[start..end], base)|
  {
    end, digitCount := start, 0;
    while end < |s|
      invariant start <= end <= |s|
      invariant ScanEnd(s, end, base) == ScanEnd(s, start, base)
      invariant digitCount == |DigitsOf(s[start..end], base)|
    {
      var c := s[end];
      if 0 <= Numerals.CharDigit(c) < base {
        digitCount := digitCount + 1;
      } else if c != '_' {
        break;
      }
      DigitsOfSnoc(s, start, end, base);
      end := end + 1;
    }
  }

  /**
   * The value of the digits among s[start..p], read left to right as the
   * accumulation loops do (other characters are skipped).
   */
  function ScannedValue(s: string, start: nat, p: nat, base: Numerals.Base): nat
    requires start <= p <= |s|
    decreases p - start
  {
    if p == start then 0
    else if 0 <= Numerals.CharDigit(s[p - 1]) < base then ScannedValue(s, start, p - 1, base) * base + Numerals.CharDigit(s[p - 1])
    else ScannedValue(s, start, p - 1, base)
  }

  /** The number of digits among s[start..p]. */
  function ScannedCount(s: string, start: nat, p: nat, base: Numerals.Base): nat
    requires start <= p <= |s|
    decreases p - start
  {
    if p == start then 0
    else ScannedCount(s, start, p - 1, base) + (if 0 <= Numerals.CharDigit(s[p - 1]) < base then 1 else 0)
  }

  /** Filtering the text one more character: the digits gain that character exactly when it is one. */
  lemma DigitsOfStep(s: string, start: nat, p: nat, base: Numerals.Base)
    requires start < p <= |s|
    ensures 0 <= Numerals.CharDigit(s[p - 1]) < base ==> DigitsOf(s[start..p], base) == DigitsOf(s[start..p - 1], base) + [s[p - 1]]
    ensures !(0 <= Numerals.CharDigit(s[p - 1]) < base) ==> DigitsOf(s[start..p], base) == DigitsOf(s[start..p - 1], base)
  {
    DigitsOfSnoc(s, start, p - 1, base);
  }

  /** The loop-wise count is the number of filtered digits. */
  lemma {:induction false} ScannedCountIsLength(s: string, start: nat, p: nat, base: Numerals.Base)
    requires start <= p <= |s|
    ensures ScannedCount(s, start, p, base) == |DigitsOf(s[start..p], base)|
  {
    if p > start {
      ScannedCountIsLength(s, start, p - 1, base);
      DigitsOfStep(s, start, p, base);
    }
  }

  /** The loop-wise reading agrees with the value of the filtered digits. */
  lemma {:induction false} ScannedIsTextValue(s: string, start: nat, p: nat, base: Numerals.Base)
    requires start <= p <= |s|
    ensures ScannedValue(s, start, p, base) == Numerals.TextValue(DigitsOf(s[start..p], base), base)
  {
    if p > start {
      ScannedIsTextValue(s, start, p - 1, base);
      DigitsOfStep(s, start, p, base);
      var c := s[p - 1];
      if 0 <= Numerals.CharDigit(c) < base {
        TextValueSnoc(DigitsOf(s[start..p - 1], base), c, base);
      }
    }
  }

  /** Digits read so far are below base to the number of them. */
  lemma {:induction false} ScannedBound(s: string, start: nat, p: nat, base: Numerals.Base)
    requires start <= p <= |s|
    ensures ScannedValue(s, start, p, base) < Algorithm.Pow(base, ScannedCount(s, start, p, base))
  {
    if p > start {
      ScannedBound(s, start, p - 1, base);
      if 0 <= Numerals.CharDigit(s[p - 1]) < base {
        DigitStep(ScannedValue(s, start, p - 1, base), Numerals.CharDigit(s[p - 1]), base,
                  Algorithm.Pow(base, ScannedCount(s, start, p - 1, base)));
      }
    }
  }

  lemma {:induction false} ScannedCountMonotone(s: string, start: nat, p: nat, q: nat, base: Numerals.Base)
    requires start <= p <= q <= |s|
    ensures ScannedCount(s, start, p, base) <= ScannedCount(s, start, q, base)
    decreases q - p
  {
    if p < q {
      ScannedCountMonotone(s, start, p, q - 1, base);
    }
  }

  /** A prefix of the digits is below base^n when all of them number at most n. */
  lemma PrefixBelow(s: string, start: nat, p: nat, end: nat, base: Numerals.Base, n: nat)
    requires start <= p <= end <= |s|
    requires ScannedCount(s, start, end, base) <= n
    ensures ScannedValue(s, start, p, base) < Algorithm.Pow(base, n)
  {
    ScannedBound(s, start, p, base);
    ScannedCountMonotone(s, start, p, end, base);
    PowMonotone(base, ScannedCount(s, start, p, base), n);
  }

  /**
   * The small-int path: the digits accumulate in a machine integer, which
   * never exceeds `ZIS_SMALLINT_MAX` when base^digitCount does not exceed
   * `ZIS_SMALLINT_MAX + 1`.
   */
  method AccumulateSmall(w: Words.Width, s: string, start: nat, end: nat, base: Numerals.Base) returns (num: nat)
    requires start <= end <= |s|
    requires end == ScanEnd(s, start, base)
    requires Algorithm.Pow(base, ScannedCount(s, start, end, base)) <= SmallInt.Max(w) + 1
    ensures num == ScannedValue(s, start, end, base)
    ensures num <= SmallInt.Max(w)
  {
    ScanEndChars(s, start, base);
    num := 0;
    var p := start;
    while p < end
      invariant start <= p <= end
      invariant num == ScannedValue(s, start, p, base)
    {
      var c := s[p];
      if c != '_' {
        var d: nat := Numerals.CharDigit(c);
        PrefixBelow(s, start, p + 1, end, base, ScannedCount(s, start, end, base));
        assert ScannedValue(s, start, p + 1, base) == num * base + d;
        num := num * base + d;
        assert num <= SmallInt.Max(w);
      }
      p := p + 1;
    }
    PrefixBelow(s, start, end, end, base, ScannedCount(s, start, end, base));
  }

  /** `bigint_self_mul_add_1` with a carry known to be zero. */
  method MulAddDigit(cells: array<Cell>, base: Numerals.Base, d: nat)
    requires d < base
    requires Value(cells[..]) * base + d < Weight(cells.Length)
    modifies cells
    ensures Value(cells[..]) == old(Value(cells[..])) * base + d
  {
    var carry := SelfMulAdd1(cells, base as Cell, d as Cell);
    NoCarry(Value(cells[..]), carry, Weight(cells.Length), old(Value(cells[..])) * base + d);
  }

  /**
   * The big-integer path: the cells, zero on entry, are multiplied by the
   * base and receive each digit in turn; no carry leaves the vector when
   * base^digitCount fits its weight.
   */
  method AccumulateCells(cells: array<Cell>, s: string, start: nat, end: nat, base: Numerals.Base)
    requires start <= end <= |s|
    requires end == ScanEnd(s, start, base)
    requires Value(cells[..]) == 0
    requires Algorithm.Pow(base, ScannedCount(s, start, end, base)) <= Weight(cells.Length)
    modifies cells
    ensures Value(cells[..]) == ScannedValue(s, start, end, base)
  {
    ScanEndChars(s, start, base);
    var p := start;
    while p < end
      invariant start <= p <= end
      invariant Value(cells[..]) == ScannedValue(s, start, p, base)
    {
      var c := s[p];
      if c != '_' {
        PrefixBelow(s, start, p + 1, end, base, ScannedCount(s, start, end, base));
        MulAddDigit(cells, base, Numerals.CharDigit(c));
      }
      p := p + 1;
    }
  }

  /**
   * `zis_int_obj_or_smallint_s`: read an integer from s in the given base.
   * The end is where reading stopped (just past a '-' when no digit
   * follows); the result is nothing when there is no digit or when the
   * cells the digits may need exceed `INT_OBJ_CELL_COUNT_MAX`, and
   * otherwise a runtime integer denoting the value, small exactly when the
   * value is in the small-int range.
   */
  method ParseInt(w: Words.Width, s: string, base: Numerals.Base) returns (r: Option<IntRef>, end: nat)
    ensures end == ParseSpec(s, base).1
    ensures ParseSpec(s, base).0.None? ==> r.None?
    ensures ParseSpec(s, base).0.Some? ==>
              var digitCount := |DigitsOf(s[SignLength(s)..end], base)|;
              r.None? <==> ParseCellCount(digitCount, base) > CellCountMax
    ensures r.Some? ==> ParseSpec(s, base).0.Some? && (r.value.Small? <==> SmallInt.InRange(w, ParseSpec(s, base).0.value))
    ensures r.Some? && r.value.Small? ==> r.value.v == ParseSpec(s, base).0.value
    ensures r.Some? && r.value.Big? ==>
              fresh(r.value.obj) && r.value.obj.Valid() && Normal(r.value.obj.Cells()) &&
              r.value.obj.Signed() == ParseSpec(s, base).0.value
  {
    var negative := |s| > 0 && s[0] == '-';
    var start: nat := if negative then 1 else 0;
    var scanEnd, digitCount := ScanDigits(s, start, base);
    if digitCount == 0 {
      return None, start;
    }
    end := scanEnd;
    ScannedCountIsLength(s, start, end, base);
    ScannedIsTextValue(s, start, end, base);
    var numWidth := NumWidth(digitCount, base);
    ScannedBound(s, start, end, base);
    if numWidth < w - 1 {
      SmallMaxPow2(w);
      Words.Pow2Monotone(numWidth, w - 2);
      var num := AccumulateSmall(w, s, start, end, base);
      r := Some(Small(SignedValue(negative, num)));
    } else {
      r := ParseBig(w, s, start, end, base, negative, numWidth);
    }
  }

  /**
   * The big-integer path of `zis_int_obj_or_smallint_s`: an object of
   * `round_up(num_width, 32) / 32` zero cells receives the digits and is
   * then shrunk; nothing when that count exceeds `INT_OBJ_CELL_COUNT_MAX`.
   */
  method ParseBig(w: Words.Width, s: string, start: nat, end: nat, base: Numerals.Base, negative: bool, numWidth: nat)
      returns (r: Option<IntRef>)
    requires start <= end <= |s|
    requires end == ScanEnd(s, start, base)
    requires numWidth >= w - 1
    requires Algorithm.Pow(base, ScannedCount(s, start, end, base)) <= Words.Pow2(numWidth)
    ensures r.None? <==> (numWidth + 31) / 32 > CellCountMax
    ensures r.Some? ==> (r.value.Small? <==> SmallInt.InRange(w, SignedValue(negative, ScannedValue(s, start, end, base))))
    ensures r.Some? && r.value.Small? ==> r.value.v == SignedValue(negative, ScannedValue(s, start, end, base))
    ensures r.Some? && r.value.Big? ==>
              fresh(r.value.obj) && r.value.obj.Valid() && Normal(r.value.obj.Cells()) &&
              r.value.obj.Signed() == SignedValue(negative, ScannedValue(s, start, end, base))
  {
    var cellCount := (numWidth + 31) / 32;
    if cellCount > CellCountMax {
      return None;
    }
    var x := new Int(cellCount, negative);
    ZeroRange(x.cells, 0, cellCount);
    assert x.cells[..] == Zeros(cellCount);
    ValueZeros(cellCount);
    WeightIsPow2(cellCount);
    Words.Pow2Monotone(numWidth, 32 * cellCount);
    AccumulateCells(x.cells, s, start, end, base);
    assert x.Cells() == x.cells[..];
    var y := Shrink(w, x);
    r := Some(y);
  }

  // ----- reading back what was printed -----

  /** The text of v in the given base: a '-' for negatives, then the numeral of |v|. */
  function IntText(v: int, base: Numerals.Base, upper: bool): (t: string)
    ensures |t| >= 1
  {
    (if v < 0 then "-" else "") + Numerals.Numeral(if v < 0 then -v else v, base, upper)
  }

  /** The scan stops at e when everything from i up to e is a digit or '_' and e ends the text or the numeral. */
  lemma {:induction false} ScanEndStops(s: string, i: nat, e: nat, base: Numerals.Base)
    requires i <= e <= |s|
    requires forall k :: i <= k < e ==> 0 <= Numerals.CharDigit(s[k]) < base || s[k] == '_'
    requires e < |s| ==> !(0 <= Numerals.CharDigit(s[e]) < base) && s[e] != '_'
    ensures ScanEnd(s, i, base) == e
    decreases e - i
  {
    if i < e {
      ScanEndStops(s, i + 1, e, base);
    }
  }

  /** Text made only of digits is its own filtered digits. */
  lemma {:induction false} DigitsOfAllDigits(t: string, base: Numerals.Base)
    requires forall k :: 0 <= k < |t| ==> 0 <= Numerals.CharDigit(t[k]) < base
    ensures DigitsOf(t, base) == t
  {
    if t != [] {
      DigitsOfAllDigits(t[..|t| - 1], base);
    }
  }

  /** A sign, digits, then a character that ends the numeral: the digits' value, signed, and the end of the digits. */
  lemma ParseNumeralAt(s: string, sign: string, num: string, rest: string, base: Numerals.Base)
    requires s == sign + num + rest
    requires SignLength(s) == |sign|
    requires num != [] && forall k :: 0 <= k < |num| ==> 0 <= Numerals.CharDigit(num[k]) < base
    requires rest != [] ==> !(0 <= Numerals.CharDigit(rest[0]) < base) && rest[0] != '_'
    ensures ParseSpec(s, base) == (Some(SignedValue(|sign| == 1, Numerals.TextValue(num, base))), |sign| + |num|)
  {
    var e := |sign| + |num|;
    forall k | |sign| <= k < e
      ensures 0 <= Numerals.CharDigit(s[k]) < base
    {
      assert s[k] == num[k - |sign|];
    }
    assert e < |s| ==> s[e] == rest[0];
    ScanEndStops(s, |sign|, e, base);
    assert s[|sign|..e] == num;
    DigitsOfAllDigits(num, base);
  }

  /** A numeral never starts with '-', so only an explicit sign counts as one. */
  lemma SignLengthOf(sign: string, num: string, rest: string)
    requires sign == "-" || sign == ""
    requires num != [] && Numerals.CharDigit(num[0]) >= 0
    ensures SignLength(sign + num + rest) == |sign|
  {
    assert Numerals.CharDigit('-') == -1;
    assert (sign + num + rest)[|sign|] == num[0];
  }

  /** A sign for v and digits spelling |v| read back as v. */
  lemma ParseSignedDigits(v: int, sign: string, num: string, rest: string, base: Numerals.Base)
    requires sign == if v < 0 then "-" else ""
    requires num != [] && forall k :: 0 <= k < |num| ==> 0 <= Numerals.CharDigit(num[k]) < base
    requires Numerals.TextValue(num, base) == if v < 0 then -v else v
    requires rest != [] ==> !(0 <= Numerals.CharDigit(rest[0]) < base) && rest[0] != '_'
    ensures ParseSpec(sign + num + rest, base) == (Some(v), |sign| + |num|)
  {
    SignLengthOf(sign, num, rest);
    ParseNumeralAt(sign + num + rest, sign, num, rest, base);
  }

  /**
   * Reading back the text of any integer, followed by anything that cannot
   * continue a numeral, gives the integer and stops at the end of its text.
   */
  lemma ParseIntText(v: int, base: Numerals.Base, upper: bool, rest: string)
    requires rest != [] ==> !(0 <= Numerals.CharDigit(rest[0]) < base) && rest[0] != '_'
    ensures ParseSpec(IntText(v, base, upper) + rest, base) == (Some(v), |IntText(v, base, upper)|)
  {
    var mag: nat := if v < 0 then -v else v;
    var num := Numerals.Numeral(mag, base, upper);
    var sign: string := if v < 0 then "-" else "";
    assert IntText(v, base, upper) + rest == sign + num + rest by {
      assert IntText(v, base, upper) == sign + num;
    }
    assert ParseSpec(sign + num + rest, base) == (Some(v), |sign| + |num|) by {
      Numerals.NumeralValue(mag, base, upper);
      ParseSignedDigits(v, sign, num, rest, base);
    }
  }

  /** The strings of the `zis_int_obj_or_smallint_s` tests: a signed decimal with separators. */
  lemma ParseExampleDecimal()
    ensures ParseSpec("-1_2_3", 10) == (Some(-123), 6)
  {
    var a := "-1_2_3";
    assert SignLength(a) == 1;
    assert ScanEnd(a, 1, 10) == 6 by {
      ScanEndStops(a, 1, 6, 10);
    }
    assert DigitsOf(a[1..6], 10) == "123" by {
      assert a[1..6] == "1_2_3";
      assert "1_2_3"[..4] == "1_2_";
      assert "1_2_"[..3] == "1_2";
      assert "1_2"[..2] == "1_";
      assert "1_"[..1] == "1";
    }
    assert Numerals.TextValue("123", 10) == 123 by {
      assert "123"[..2] == "12";
      assert "12"[..1] == "1";
    }
  }

  /** A hexadecimal numeral with a separator. */
  lemma ParseExampleHex()
    ensures ParseSpec("ff_ff", 16) == (Some(0xffff), 5)
  {
    var b := "ff_ff";
    assert SignLength(b) == 0;
    assert ScanEnd(b, 0, 16) == 5 by {
      ScanEndStops(b, 0, 5, 16);
    }
    assert DigitsOf(b[0..5], 16) == "ffff" by {
      assert b[0..5] == b;
      assert b[..4] == "ff_f";
      assert "ff_f"[..3] == "ff_";
      assert "ff_"[..2] == "ff";
      assert "ff"[..1] == "f";
    }
    assert Numerals.TextValue("ffff", 16) == 0xffff by {
      assert "ffff"[..3] == "fff";
      assert "fff"[..2] == "ff";
      assert "ff"[..1] == "f";
    }
  }

  /** A lone '-' reads nothing and ends past the sign. */
  lemma ParseExampleSignOnly()
    ensures ParseSpec("-", 10) == (None, 1)
  {
    assert "-"[1..1] == [];
  }

  // ----- integer to text -----

  lemma DivLess(n: nat, base: Numerals.Base)
    requires n > 0
    ensures 0 <= n / base < n
    ensures 0 <= n % base < base
  {
    if n >= base {
      Numerals.DivModParts(n, base);
    }
  }

  /**
   * The characters the printing loops produce for n: the last one is the
   * digit of n % base, the first loop turn's; none for zero, where the
   * loops stop.
   */
  function DigitsText(n: nat, base: Numerals.Base, upper: bool): (t: string)
    decreases n
  {
    if n == 0 then ""
    else
      DivLess(n, base);
      DigitsText(n / base, base, upper) + [Numerals.DigitChar(n % base, upper)]
  }

  /** Spelling one more digit appends its character. */
  lemma SpellSnoc(ds: seq<nat>, d: nat, upper: bool)
    requires Numerals.DigitsBelow(ds, 36) && d < 36
    ensures Numerals.Spell(ds + [d], upper) == Numerals.Spell(ds, upper) + [Numerals.DigitChar(d, upper)]
  {
  }

  /** A number of one digit. */
  lemma NumeralOfDigit(n: nat, base: Numerals.Base, upper: bool)
    requires 0 < n < base
    ensures DigitsText(n, base, upper) == Numerals.Numeral(n, base, upper)
  {
    DivModUnique(n, base, 0, n);
    assert DigitsText(n, base, upper) == [Numerals.DigitChar(n, upper)];
    assert Numerals.Digits(n, base) == [n];
    var t := Numerals.Spell([n], upper);
    assert |t| == 1 && t[0] == Numerals.DigitChar(n, upper);
  }

  /** The numeral of a number of several digits is that of its quotient followed by its last digit. */
  lemma NumeralSnoc(n: nat, base: Numerals.Base, upper: bool)
    requires n >= base
    ensures Numerals.Numeral(n, base, upper) == Numerals.Numeral(n / base, base, upper) + [Numerals.DigitChar(n % base, upper)]
  {
    Numerals.DivModParts(n, base);
    var ds := Numerals.Digits(n / base, base);
    assert Numerals.Digits(n, base) == ds + [n % base];
    SpellSnoc(ds, n % base, upper);
  }

  /** What the loops produce for a positive number is its numeral. */
  lemma {:induction false} DigitsTextIsNumeral(n: nat, base: Numerals.Base, upper: bool)
    requires n > 0
    ensures DigitsText(n, base, upper) == Numerals.Numeral(n, base, upper)
    decreases n
  {
    if n < base {
      NumeralOfDigit(n, base, upper);
    } else {
      Numerals.DivModParts(n, base);
      DigitsTextIsNumeral(n / base, base, upper);
      NumeralSnoc(n, base, upper);
    }
  }

  /** The numeral of zero is "0". */
  lemma ZeroText(base: Numerals.Base, upper: bool)
    ensures IntText(0, base, upper) == "0"
  {
    assert Numerals.Digits(0, base) == [0];
  }

  /**
   * The common tail of both printers: the digits occupy the end of the
   * buffer from p; a '-' goes before them when the number is negative,
   * unless there is no room, and the text moves to the front of the buffer.
   * The result is the length of the text, or -1 when it does not fit.
   */
  method FinishText(buf: array<char>, p: nat, negative: bool, ghost digits: string) returns (n: int)
    requires p <= buf.Length && buf[p..] == digits
    modifies buf
    ensures var t := (if negative then "-" else "") + digits;
            (n == -1 <==> buf.Length < |t|) && (n != -1 ==> n == |t| && buf[..n] == t)
  {
    var q := p;
    if negative {
      if q == 0 {
        return -1;
      }
      q := q - 1;
      buf[q] := '-';
      assert buf[q..] == "-" + digits;
    }
    var written := buf.Length - q;
    if q != 0 {
      Fsutil.CopyN(buf, 0, buf[q..]);
    }
    n := written;
  }

  function Abs(base: int): int {
    if base < 0 then -base else base
  }

  /**
   * `zis_smallint_to_str` with a buffer: the text of i in base |base|
   * (upper-case letters when base is negative) is written at the start of
   * buf and its length returned, or -1 when buf is too short.
   */
  method SmallintToStr(w: Words.Width, i: int, buf: array<char>, base: int) returns (n: int)
    requires SmallInt.InRange(w, i)
    requires 2 <= Abs(base) <= 36
    modifies buf
    ensures var t := IntText(i, Abs(base), base < 0);
            (n == -1 <==> buf.Length < |t|) && (n != -1 ==> n == |t| && buf[..n] == t)
  {
    var negative := i < 0;
    var num: nat := if negative then -i else i;
    var upper := base < 0;
    var b: Numerals.Base := Abs(base);
    if num == 0 {
      ZeroText(b, upper);
      if buf.Length == 0 {
        return -1;
      }
      buf[0] := '0';
      return 1;
    }
    DigitsTextIsNumeral(num, b, upper);
    assert IntText(i, b, upper) == (if negative then "-" else "") + DigitsText(num, b, upper);
    var p := WriteDigits(num, b, upper, buf);
    if p == -1 {
      return -1;
    }
    n := FinishText(buf, p, negative, DigitsText(num, b, upper));
  }

  /**
   * The digit loop of `zis_smallint_to_str`: the digits of num, least
   * significant first, go backwards from the end of buf; the result is
   * where they start, or -1 when a digit finds no room.
   */
  method WriteDigits(num0: nat, b: Numerals.Base, upper: bool, buf: array<char>) returns (p: int)
    modifies buf
    ensures p == -1 <==> buf.Length < |DigitsText(num0, b, upper)|
    ensures p != -1 ==> 0 <= p <= buf.Length && buf[p..] == DigitsText(num0, b, upper)
  {
    var num: nat := num0;
    p := buf.Length;
    while num != 0
      invariant 0 <= p <= buf.Length
      invariant DigitsText(num, b, upper) + buf[p..] == DigitsText(num0, b, upper)
      decreases num
    {
      if p == 0 {
        assert |DigitsText(num, b, upper)| >= 1;
        return -1;
      }
      DivLess(num, b);
      var q, r := num / b, num % b;
      num := q;
      p := p - 1;
      buf[p] := Numerals.DigitChar(r, upper);
      assert buf[p..] == [buf[p]] + buf[p + 1..];
    }
  }

  /** A vector with a non-zero cell denotes a positive number. */
  lemma CellPositive(s: seq<Cell>, k: nat)
    requires k < |s| && s[k] != 0
    ensures Value(s) > 0
  {
    ValueSplit(s, k);
    ValueFrom(s, k);
    MulAtMost(Weight(k), 1, Value(s[k..]));
  }

  /** Below the weight of k cells with cell k - 1 zero: below the weight of k - 1 cells. */
  lemma TopZeroBelow(s: seq<Cell>, k: nat)
    requires 0 < k <= |s| && s[k - 1] == 0 && Value(s) < Weight(k)
    ensures Value(s) < Weight(k - 1)
  {
    ValueSplit(s, k - 1);
    ValueFrom(s, k - 1);
    ValueBound(s[..k - 1]);
    if Value(s[k..]) > 0 {
      MulAtMost(Weight(k - 1), Base, Base * Value(s[k..]));
    }
  }

  /** The text of a signed positive magnitude: its sign, then what the digit loops produce. */
  lemma SignedText(negative: bool, mag: nat, base: Numerals.Base, upper: bool)
    requires mag > 0
    ensures IntText(SignedValue(negative, mag), base, upper) == (if negative then "-" else "") + DigitsText(mag, base, upper)
  {
    DigitsTextIsNumeral(mag, base, upper);
  }

  /**
   * One turn of the digit loop of `zis_int_obj_value_s`: the vector is
   * divided by the base in place and the character of the remainder goes
   * just before position p.
   */
  method EmitCellDigit(dup: array<Cell>, b: Numerals.Base, upper: bool, buf: array<char>, p: nat)
    requires 0 < p <= buf.Length && Value(dup[..]) > 0
    modifies dup, buf
    ensures Value(dup[..]) < old(Value(dup[..]))
    ensures DigitsText(Value(dup[..]), b, upper) + buf[p - 1..] == DigitsText(old(Value(dup[..])), b, upper) + old(buf[p..])
  {
    ghost var v := Value(dup[..]);
    var r := SelfDiv1(dup, b as Cell);
    DivModUnique(v, b, Value(dup[..]), r);
    DivLess(v, b);
    buf[p - 1] := Numerals.DigitChar(r, upper);
    assert buf[p - 1..] == [buf[p - 1]] + buf[p..];
  }

  /** The inner loop of `zis_int_obj_value_s`: drop the leading zero cells from the count in use. */
  method TrimReset(dup: array<Cell>, reset0: nat) returns (reset: nat)
    requires reset0 <= dup.Length && Value(dup[..]) < Weight(reset0)
    ensures reset <= reset0 && Value(dup[..]) < Weight(reset)
    ensures reset > 0 ==> dup[reset - 1] != 0
  {
    reset := reset0;
    while reset != 0 && dup[reset - 1] == 0
      invariant reset <= reset0
      invariant Value(dup[..]) < Weight(reset)
    {
      TopZeroBelow(dup[..], reset);
      reset := reset - 1;
    }
  }

  /**
   * The digit loop of `zis_int_obj_value_s` on a copy of the cells: divide
   * the whole vector by the base, put the character of the remainder
   * before the digits already written, and drop the leading zero cells
   * from the count that decides when to stop.  The result is where the
   * digits start in buf, or -1 when a digit finds no room.
   */
  method WriteCellDigits(dup: array<Cell>, b: Numerals.Base, upper: bool, buf: array<char>) returns (p: int)
    requires Normal(dup[..])
    modifies dup, buf
    ensures p == -1 <==> buf.Length < |DigitsText(old(Value(dup[..])), b, upper)|
    ensures p != -1 ==> 0 <= p <= buf.Length && buf[p..] == DigitsText(old(Value(dup[..])), b, upper)
  {
    ghost var v0 := Value(dup[..]);
    ValueBound(dup[..]);
    var reset: nat := dup.Length;
    p := buf.Length;
    while reset != 0
      invariant 0 <= reset <= dup.Length && 0 <= p <= buf.Length
      invariant Value(dup[..]) < Weight(reset)
      invariant reset > 0 ==> dup[reset - 1] != 0
      invariant DigitsText(Value(dup[..]), b, upper) + buf[p..] == DigitsText(v0, b, upper)
      decreases Value(dup[..])
    {
      CellPositive(dup[..], reset - 1);
      if p == 0 {
        assert |DigitsText(Value(dup[..]), b, upper)| >= 1;
        return -1;
      }
      EmitCellDigit(dup, b, upper, buf, p);
      p := p - 1;
      reset := TrimReset(dup, reset);
    }
  }

  /**
   * `zis_int_obj_value_s` with a buffer: the text of the object's integer
   * in base |base| (upper-case letters when base is negative) is written
   * at the start of buf and its length returned, or -1 when buf is too
   * short.  The object itself is left as it was.
   */
  method ValueS(x: Int, buf: array<char>, base: int) returns (n: int)
    requires x.cellCount <= x.cells.Length && Normal(x.Cells())
    requires 2 <= Abs(base) <= 36
    modifies buf
    ensures var t := IntText(x.Signed(), Abs(base), base < 0);
            (n == -1 <==> buf.Length < |t|) && (n != -1 ==> n == |t| && buf[..n] == t)
  {
    var upper := base < 0;
    var b: Numerals.Base := Abs(base);
    var cc := x.cellCount;
    var dup := new Cell[cc];
    CopyCells(dup, 0, x.cells[..], 0, cc);
    assert dup[..] == x.Cells();
    ghost var mag := Value(dup[..]);
    CellPositive(dup[..], cc - 1);
    SignedText(x.negative, mag, b, upper);
    var p := WriteCellDigits(dup, b, upper, buf);
    if p == -1 {
      return -1;
    }
    n := FinishText(buf, p, x.negative, DigitsText(mag, b, upper));
  }

  // ----- comparison -----

  /**
   * A runtime integer in the canonical form `int_obj_shrink` leaves: a
   * small int, or an object whose normalised magnitude denotes a value
   * outside the small-int range.
   */
  predicate Canonical(w: Words.Width, x: IntRef)
    reads if x.Big? then {x.obj} else {}
    reads if x.Big? then {x.obj.cells} else {}
  {
    match x
    case Small(v) => SmallInt.InRange(w, v)
    case Big(obj) => obj.cellCount <= obj.cells.Length && Normal(obj.Cells()) && !SmallInt.InRange(w, obj.Signed())
  }

  /** The integer a runtime integer denotes. */
  function Denoted(x: IntRef): int
    reads if x.Big? then {x.obj} else {}
    reads if x.Big? then {x.obj.cells} else {}
    requires x.Big? ==> x.obj.cellCount <= x.obj.cells.Length
  {
    match x
    case Small(v) => v
    case Big(obj) => obj.Signed()
  }

  /** The magnitude of an object. */
  function Magnitude(x: IntRef): nat
    reads if x.Big? then {x.obj} else {}
    reads if x.Big? then {x.obj.cells} else {}
    requires x.Big? && x.obj.cellCount <= x.obj.cells.Length
  {
    Value(x.obj.Cells())
  }

  function Sign(d: int): int {
    if d < 0 then -1 else if d == 0 then 0 else 1
  }

  /** A canonical object lies beyond the small-int range on the side of its sign. */
  lemma BigBeyondSmall(w: Words.Width, x: IntRef, v: int)
    requires x.Big? && Canonical(w, x) && SmallInt.InRange(w, v)
    ensures x.obj.negative ==> Denoted(x) < v
    ensures !x.obj.negative ==> Denoted(x) > v
  {
  }

  /**
   * `zis_int_obj_or_smallint_compare` as written: -1, 0 or 1 as lhs is
   * below, equal to or above rhs, except that two objects are compared by
   * their magnitudes only.
   */
  method CompareAsWritten(w: Words.Width, lhs: IntRef, rhs: IntRef) returns (r: int)
    requires Canonical(w, lhs) && Canonical(w, rhs)
    ensures lhs.Big? && rhs.Big? ==> r == Sign(Magnitude(lhs) - Magnitude(rhs))
    ensures !(lhs.Big? && rhs.Big?) ==> r == Sign(Denoted(lhs) - Denoted(rhs))
  {
    if lhs == rhs {
      return 0;
    }
    if lhs.Small? && rhs.Small? {
      r := if lhs.v < rhs.v then -1 else 1;
    } else if lhs.Small? {
      BigBeyondSmall(w, rhs, lhs.v);
      r := if rhs.obj.negative then 1 else -1;
    } else if rhs.Small? {
      BigBeyondSmall(w, lhs, rhs.v);
      r := if lhs.obj.negative then -1 else 1;
    } else {
      r := Cmp(lhs.obj.Cells(), rhs.obj.Cells());
    }
  }

  /** The comparison with the signs of two objects taken into account. */
  method Compare(w: Words.Width, lhs: IntRef, rhs: IntRef) returns (r: int)
    requires Canonical(w, lhs) && Canonical(w, rhs)
    ensures r == Sign(Denoted(lhs) - Denoted(rhs))
  {
    if lhs.Big? && rhs.Big? && lhs != rhs {
      var lobj, robj := lhs.obj, rhs.obj;
      if lobj.negative != robj.negative {
        return if lobj.negative then -1 else 1;
      }
      var c := Cmp(lobj.Cells(), robj.Cells());
      return if lobj.negative then -c else c;
    }
    r := CompareAsWritten(w, lhs, rhs);
  }

  /** Cell vectors of one length denote one value only if they are equal. */
  lemma {:induction false} SameLengthUnique(a: seq<Cell>, b: seq<Cell>)
    requires |a| == |b| && Value(a) == Value(b)
    ensures a == b
  {
    if a != [] {
      DivModUnique(Value(a), Base, Value(a[1..]), a[0]);
      DivModUnique(Value(b), Base, Value(b[1..]), b[0]);
      SameLengthUnique(a[1..], b[1..]);
      assert a == [a[0]] + a[1..];
      assert b == [b[0]] + b[1..];
    }
  }

  /** Normalised magnitudes are equal exactly when their values are. */
  lemma NormalUnique(a: seq<Cell>, b: seq<Cell>)
    requires Normal(a) && Normal(b)
    ensures a == b <==> Value(a) == Value(b)
  {
    if Value(a) == Value(b) {
      if |a| < |b| {
        LengthDecides(a, b);
      } else if |b| < |a| {
        LengthDecides(b, a);
      } else {
        SameLengthUnique(a, b);
      }
    }
  }

  /**
   * `zis_int_obj_or_smallint_equals` as written: equality of the values,
   * except that two objects are equal when their cells are, whatever
   * their signs.
   */
  method EqualsAsWritten(w: Words.Width, lhs: IntRef, rhs: IntRef) returns (r: bool)
    requires Canonical(w, lhs) && Canonical(w, rhs)
    ensures lhs.Big? && rhs.Big? ==> (r <==> Magnitude(lhs) == Magnitude(rhs))
    ensures !(lhs.Big? && rhs.Big?) ==> (r <==> Denoted(lhs) == Denoted(rhs))
  {
    if lhs == rhs {
      return true;
    }
    if lhs.Small? || rhs.Small? {
      if lhs.Big? {
        BigBeyondSmall(w, lhs, rhs.v);
      } else if rhs.Big? {
        BigBeyondSmall(w, rhs, lhs.v);
      }
      return false;
    }
    var a, b := lhs.obj.Cells(), rhs.obj.Cells();
    NormalUnique(a, b);
    if lhs.obj.cellCount != rhs.obj.cellCount {
      return false;
    }
    r := a == b;
  }

  /** The equality with the signs of two objects taken into account. */
  method Equals(w: Words.Width, lhs: IntRef, rhs: IntRef) returns (r: bool)
    requires Canonical(w, lhs) && Canonical(w, rhs)
    ensures r <==> Denoted(lhs) == Denoted(rhs)
  {
    r := EqualsAsWritten(w, lhs, rhs);
    if lhs.Big? && rhs.Big? && lhs.obj.negative != rhs.obj.negative {
      r := false;
    }
  }

  /**
   * Two objects denoting -2^64 and 2^64 (canonical on both word sizes)
   * have the same magnitude: the as-written comparison calls them equal.
   */
  lemma SignIgnoredExample()
    ensures var mag := Value([0, 0, 1]);
            mag == Words.Pow2(64) && Sign(mag - mag) == 0 &&
            SignedValue(true, mag) != SignedValue(false, mag) &&
            forall w: Words.Width :: !SmallInt.InRange(w, SignedValue(true, mag)) && !SmallInt.InRange(w, SignedValue(false, mag))
  {
    var c: seq<Cell> := [0, 0, 1];
    assert Value(c[2..]) == 1 by {
      assert c[2..][1..] == [];
    }
    assert c[1..][1..] == c[2..];
    Words.Pow2Values();
  }

  // ----- powers of two -----

  /** `zis_bits_popcount`: the number of one bits. */
  function BitCount(c: nat): nat {
    if c == 0 then 0 else c % 2 + BitCount(c / 2)
  }

  ghost predicate IsPowerOfTwo(v: nat) {
    exists k: nat :: v == Words.Pow2(k)
  }

  lemma {:induction false} BitCountOfPow2(k: nat)
    ensures BitCount(Words.Pow2(k)) == 1
  {
    if k > 0 {
      BitCountOfPow2(k - 1);
      assert Words.Pow2(k) / 2 == Words.Pow2(k - 1);
    }
  }

  lemma {:induction false} BitCountOnePow2(c: nat)
    requires BitCount(c) == 1
    ensures IsPowerOfTwo(c)
  {
    if c % 2 == 1 {
      if c / 2 != 0 {
        BitCountPositive(c / 2);
      }
      assert c == Words.Pow2(0);
    } else {
      BitCountOnePow2(c / 2);
      var k: nat :| c / 2 == Words.Pow2(k);
      assert c == Words.Pow2(k + 1);
    }
  }

  lemma {:induction false} BitCountPositive(c: nat)
    requires c > 0
    ensures BitCount(c) > 0
  {
    if c % 2 == 0 {
      BitCountPositive(c / 2);
    }
  }

  /** A cell has a single bit exactly when it is a power of two. */
  lemma SingleBit(c: nat)
    ensures BitCount(c) == 1 <==> IsPowerOfTwo(c)
  {
    if BitCount(c) == 1 {
      BitCountOnePow2(c);
    }
    if IsPowerOfTwo(c) {
      var k: nat :| c == Words.Pow2(k);
      BitCountOfPow2(k);
    }
  }

  /** The test `int_obj_is_pow2` intends: a single bit in the top cell and zeros below it. */
  predicate SingleBitCells(s: seq<Cell>)
    requires |s| > 0
  {
    BitCount(s[|s| - 1]) == 1 && forall i :: 0 <= i < |s| - 1 ==> s[i] == 0
  }

  /** A power of two above a cell is the cell weight times a smaller power of two. */
  lemma Pow2AboveCell(k: nat)
    requires Words.Pow2(k) >= Base
    ensures k >= 32 && Words.Pow2(k) == Base * Words.Pow2(k - 32)
  {
    if k < 32 {
      Pow2BelowCell(k);
      assert false;
    }
    CellPow2();
    Words.Pow2Add(32, k - 32);
  }

  lemma Pow2BelowCell(k: nat)
    requires k < 32
    ensures Words.Pow2(k) < Base
  {
    CellPow2();
    Words.Pow2Monotone(k + 1, 32);
    assert Words.Pow2(k + 1) == 2 * Words.Pow2(k);
  }

  /** A normalised magnitude is a power of two exactly when it is a single bit in the top cell over zero cells. */
  lemma {:induction false} PowerOfTwoCells(s: seq<Cell>)
    requires Normal(s)
    ensures IsPowerOfTwo(Value(s)) <==> SingleBitCells(s)
    decreases |s|
  {
    var top := s[|s| - 1];
    if |s| == 1 {
      ValueOneCell(s);
      SingleBit(top);
    } else {
      var t := s[1..];
      assert Normal(t) && t[|t| - 1] == top;
      PowerOfTwoCells(t);
      assert Value(s) == s[0] + Base * Value(t);
      ValueTop(t);
      if IsPowerOfTwo(Value(s)) {
        var k: nat :| Value(s) == Words.Pow2(k);
        MulAtMost(Base, 1, Value(t));
        Pow2AboveCell(k);
        DivModUnique(Value(s), Base, Words.Pow2(k - 32), 0);
        DivModUnique(Value(s), Base, Value(t), s[0]);
        assert Value(t) == Words.Pow2(k - 32);
        assert SingleBitCells(t);
        forall i | 0 <= i < |s| - 1
          ensures s[i] == 0
        {
          if i > 0 {
            assert s[i] == t[i - 1];
          }
        }
      }
      if SingleBitCells(s) {
        forall i | 0 <= i < |t| - 1
          ensures t[i] == 0
        {
          assert t[i] == s[i + 1];
        }
        var k: nat :| Value(t) == Words.Pow2(k);
        CellPow2();
        Words.Pow2Add(32, k);
        assert Value(s) == Words.Pow2(32 + k);
      }
    }
  }

  /**
   * `int_obj_is_pow2` as written: after the top-cell test the loop starts
   * at cell `cell_count - 2` but counts up, so with two or more cells it
   * reaches the non-zero top cell and answers false.
   */
  method IsPow2AsWritten(x: Int) returns (r: bool)
    requires x.cellCount <= x.cells.Length && Normal(x.Cells())
    ensures r <==> x.cellCount == 1 && BitCount(x.cells[0]) == 1
  {
    var cc: int := x.cellCount;
    if BitCount(x.cells[cc - 1]) != 1 {
      return false;
    }
    var i: int := cc - 2;
    while i != -1
      invariant cc - 2 <= i <= cc - 1
      invariant cc == 1 ==> i == -1
      decreases cc - i
    {
      if x.cells[i] != 0 {
        return false;
      }
      i := i + 1;
    }
    return true;
  }

  /** `int_obj_is_pow2` with the loop counting down to cell 0, as intended. */
  method IsPow2(x: Int) returns (r: bool)
    requires x.cellCount <= x.cells.Length && Normal(x.Cells())
    ensures r <==> IsPowerOfTwo(Value(x.Cells()))
  {
    var cc: int := x.cellCount;
    PowerOfTwoCells(x.Cells());
    if BitCount(x.cells[cc - 1]) != 1 {
      return false;
    }
    var i: int := cc - 2;
    while i != -1
      invariant -1 <= i <= cc - 2
      invariant forall k :: i < k < cc - 1 ==> x.cells[k] == 0
      decreases i
    {
      if x.cells[i] != 0 {
        return false;
      }
      i := i - 1;
    }
    return true;
  }

  /** 2^32, two cells, is a power of two that the as-written test rejects. */
  lemma IsPow2AsWrittenMissesExample()
    ensures IsPowerOfTwo(Value([0, 1])) && |[0, 1]| != 1
  {
    var c: seq<Cell> := [0, 1];
    ValueTwoCells(c);
    CellPow2();
  }
}
