/**
 * The bitset of `core/bits.h`: an array of `size_t` cells (64 bits each on
 * the modelled target) whose bit `i` lives in cell `i / 64` at offset
 * `i % 64`.  A cell is a natural number below 2^64 and its bit `k` is read
 * arithmetically, so `cell | (1 << k)` is "add 2^k when bit k is clear" and
 * `cell & ~(1 << k)` is "subtract 2^k when bit k is set".
 */
module Bitset {
  import opened Words

  /** Bits per cell: `sizeof(zis_bitset_cell_t) * 8`. */
  const CellBits: nat := 64

  /** Bytes per cell: `sizeof(zis_bitset_cell_t)`. */
  const CellBytes: nat := 8

  type Cell = c: nat | c < 0x1_0000_0000_0000_0000

  /** Bit `k` of `c`. */
  predicate Bit(c: nat, k: nat) {
    if k == 0 then c % 2 == 1 else Bit(c / 2, k - 1)
  }

  /** `zis_bitset_extract_index`: cell index, bit offset and mask of bit `i`. */
  function ExtractIndex(i: nat): (r: (nat, nat, nat))
    ensures r.0 * CellBits + r.1 == i && r.1 < CellBits
    ensures r.2 == Pow2(r.1)
  {
    (i / CellBits, i % CellBits, Pow2(i % CellBits))
  }

  /** `zis_bits_count_tz`: the number of trailing zero bits of a non-zero value. */
  function CountTz(c: nat): (n: nat)
    requires c != 0
    ensures Bit(c, n)
    ensures forall k :: 0 <= k < n ==> !Bit(c, k)
    decreases c
  {
    if c % 2 == 1 then 0
    else
      var n := 1 + CountTz(c / 2);
      assert forall k :: 1 <= k < n ==> (Bit(c, k) <==> Bit(c / 2, k - 1));
      n
  }

  /** No bit of 0 is set. */
  lemma {:induction false} ZeroHasNoBits(k: nat)
    ensures !Bit(0, k)
  {
    if k > 0 {
      ZeroHasNoBits(k - 1);
    }
  }

  /** A value below 2^n has no bit at or above n. */
  lemma {:induction false} HighBitsClear(c: nat, n: nat, k: nat)
    requires c < Pow2(n) && n <= k
    ensures !Bit(c, k)
  {
    if n == 0 {
      assert c == 0;
      ZeroHasNoBits(k);
    } else {
      HighBitsClear(c / 2, n - 1, k - 1);
    }
  }

  /** Adding 2^j to a value whose bit j is clear sets exactly that bit. */
  lemma {:induction false} AddBit(c: nat, j: nat, k: nat)
    requires !Bit(c, j)
    ensures Bit(c + Pow2(j), k) <==> Bit(c, k) || k == j
  {
    if j == 0 {
      if k > 0 {
        assert (c + 1) / 2 == c / 2;
      }
    } else {
      assert (c + Pow2(j)) / 2 == c / 2 + Pow2(j - 1);
      if k > 0 {
        AddBit(c / 2, j - 1, k - 1);
      }
    }
  }

  /** Subtracting 2^j from a value whose bit j is set clears exactly that bit. */
  lemma {:induction false} SubBit(c: nat, j: nat, k: nat)
    requires Bit(c, j)
    ensures c >= Pow2(j)
    ensures Bit(c - Pow2(j), k) <==> Bit(c, k) && k != j
  {
    if j == 0 {
      if k > 0 {
        assert (c - 1) / 2 == c / 2;
      }
    } else {
      SubBit(c / 2, j - 1, if k > 0 then k - 1 else 0);
      assert (c - Pow2(j)) / 2 == c / 2 - Pow2(j - 1);
    }
  }

  /** Setting a clear bit below n keeps a value below 2^n. */
  lemma {:induction false} AddBitBound(c: nat, j: nat, n: nat)
    requires c < Pow2(n) && j < n && !Bit(c, j)
    ensures c + Pow2(j) < Pow2(n)
  {
    if j > 0 {
      AddBitBound(c / 2, j - 1, n - 1);
    }
  }

  /** A non-zero cell has its lowest set bit below 64. */
  lemma CountTzInCell(c: Cell)
    requires c != 0
    ensures CountTz(c) < CellBits
  {
    Pow2Values();
    if CountTz(c) >= CellBits {
      HighBitsClear(c, CellBits, CountTz(c));
    }
  }

  /** `zis_bitset_test_bit`. */
  predicate TestBit(cells: seq<Cell>, i: nat)
    requires i / CellBits < |cells|
  {
    Bit(cells[i / CellBits], i % CellBits)
  }

  /** The cell after `|= mask`. */
  function SetInCell(c: Cell, k: nat): (r: Cell)
    requires k < CellBits
    ensures forall j :: Bit(r, j) <==> Bit(c, j) || j == k
  {
    if Bit(c, k) then c
    else
      Pow2Values();
      AddBitBound(c, k, CellBits);
      forall j ensures Bit(c + Pow2(k), j) <==> Bit(c, j) || j == k {
        AddBit(c, k, j);
      }
      c + Pow2(k)
  }

  /** The cell after `&= ~mask`. */
  function ResetInCell(c: Cell, k: nat): (r: Cell)
    requires k < CellBits
    ensures forall j :: Bit(r, j) <==> Bit(c, j) && j != k
  {
    if !Bit(c, k) then c
    else
      SubBit(c, k, k);
      forall j ensures Bit(c - Pow2(k), j) <==> Bit(c, j) && j != k {
        SubBit(c, k, j);
      }
      c - Pow2(k)
  }

  /** `zis_bitset_set_bit`: bit `i` becomes set, every other bit keeps its value. */
  method SetBit(bs: array<Cell>, i: nat)
    requires i / CellBits < bs.Length
    modifies bs
    ensures TestBit(bs[..], i)
    ensures forall j :: 0 <= j < bs.Length * CellBits && j != i ==> TestBit(bs[..], j) == TestBit(old(bs[..]), j)
  {
    var (cell, offset, _) := ExtractIndex(i);
    bs[cell] := SetInCell(bs[cell], offset);
    SameCellSameOffset(i);
  }

  /** `zis_bitset_reset_bit`: bit `i` becomes clear, every other bit keeps its value. */
  method ResetBit(bs: array<Cell>, i: nat)
    requires i / CellBits < bs.Length
    modifies bs
    ensures !TestBit(bs[..], i)
    ensures forall j :: 0 <= j < bs.Length * CellBits && j != i ==> TestBit(bs[..], j) == TestBit(old(bs[..]), j)
  {
    var (cell, offset, _) := ExtractIndex(i);
    bs[cell] := ResetInCell(bs[cell], offset);
    SameCellSameOffset(i);
  }

  /** `zis_bitset_try_set_bit`: writes the cell only when the bit was clear; same result as `SetBit`. */
  method TrySetBit(bs: array<Cell>, i: nat)
    requires i / CellBits < bs.Length
    modifies bs
    ensures bs[..] == old(bs[..])[i / CellBits := SetInCell(old(bs[i / CellBits]), i % CellBits)]
  {
    var (cell, offset, _) := ExtractIndex(i);
    var cellData := bs[cell];
    if !Bit(cellData, offset) {
      bs[cell] := SetInCell(cellData, offset);
    }
  }

  /** `zis_bitset_try_reset_bit`: writes the cell only when the bit was set; same result as `ResetBit`. */
  method TryResetBit(bs: array<Cell>, i: nat)
    requires i / CellBits < bs.Length
    modifies bs
    ensures bs[..] == old(bs[..])[i / CellBits := ResetInCell(old(bs[i / CellBits]), i % CellBits)]
  {
    var (cell, offset, _) := ExtractIndex(i);
    var cellData := bs[cell];
    if Bit(cellData, offset) {
      bs[cell] := ResetInCell(cellData, offset);
    }
  }

  /** Two bit indices share cell and offset only when they are equal. */
  lemma SameCellSameOffset(i: nat)
    ensures forall j: nat :: j / CellBits == i / CellBits && j % CellBits == i % CellBits ==> j == i
  {
  }

  /** `zis_bitset_clear(bs, size)`: the first `size / 8` cells become 0, the rest are untouched. */
  method Clear(bs: array<Cell>, size: nat)
    requires size / CellBytes <= bs.Length
    modifies bs
    ensures forall k :: 0 <= k < size / CellBytes ==> bs[k] == 0
    ensures forall k :: size / CellBytes <= k < bs.Length ==> bs[k] == old(bs[k])
  {
    var i, n := 0, size / CellBytes;
    while i < n
      invariant 0 <= i <= n
      invariant forall k :: 0 <= k < i ==> bs[k] == 0
      invariant forall k :: i <= k < bs.Length ==> bs[k] == old(bs[k])
    {
      bs[i] := 0;
      i := i + 1;
    }
  }

  /** Strictly increasing: no index twice, in ascending order. */
  predicate Ascending(s: seq<nat>) {
    forall a, b :: 0 <= a < b < |s| ==> s[a] < s[b]
  }

  /**
   * The inner loop of `zis_bitset_foreach_set` on one cell whose first bit
   * has index `base`: it takes the lowest set bit (`c & -c`, i.e.
   * 2^ctz(c)) and clears it (`c ^= t`) until the cell is 0, so it visits
   * every set bit of the cell once, in ascending order.
   */
  method ForeachSetInCell(cell: Cell, base: nat) returns (visited: seq<nat>)
    ensures Ascending(visited)
    ensures forall a :: 0 <= a < |visited| ==> base <= visited[a] < base + CellBits
    ensures forall i: nat :: i in visited <==> base <= i < base + CellBits && Bit(cell, i - base)
  {
    var cellData := cell;
    visited := [];
    ghost var lo := 0;
    forall k: nat | k >= CellBits ensures !Bit(cellData, k) {
      Pow2Values();
      HighBitsClear(cellData, CellBits, k);
    }
    while cellData != 0
      invariant lo <= CellBits
      invariant forall k: nat :: Bit(cellData, k) <==> Bit(cell, k) && lo <= k < CellBits
      invariant Ascending(visited)
      invariant forall a :: 0 <= a < |visited| ==> base <= visited[a] < base + lo
      invariant forall i: nat :: i in visited <==> base <= i < base + lo && Bit(cell, i - base)
      decreases cellData
    {
      var n := CountTz(cellData);
      CountTzInCell(cellData);
      visited := visited + [base + n];
      cellData := ResetInCell(cellData, n);
      lo := n + 1;
    }
    forall k: nat | lo <= k < CellBits ensures !Bit(cell, k) {
      ZeroHasNoBits(k);
    }
  }

  /**
   * `zis_bitset_foreach_set(bs, size, i, ...)`: the bit indices the statement
   * runs for, in the order it runs: every set bit of the first `size / 8`
   * cells, each once, in ascending order.
   */
  method ForeachSet(bs: array<Cell>, size: nat) returns (visited: seq<nat>)
    requires size / CellBytes <= bs.Length
    ensures Ascending(visited)
    ensures forall i: nat :: i in visited <==> i < size / CellBytes * CellBits && TestBit(bs[..], i)
  {
    var cellsCount := size / CellBytes;
    visited := [];
    var ci := 0;
    while ci < cellsCount
      invariant 0 <= ci <= cellsCount
      invariant Ascending(visited)
      invariant forall a :: 0 <= a < |visited| ==> visited[a] < ci * CellBits
      invariant forall i: nat :: i in visited <==> i < ci * CellBits && TestBit(bs[..], i)
    {
      var more := ForeachSetInCell(bs[ci], ci * CellBits);
      forall i: nat | ci * CellBits <= i < (ci + 1) * CellBits
        ensures TestBit(bs[..], i) == Bit(bs[ci], i - ci * CellBits)
      {
        assert i / CellBits == ci;
      }
      AppendAscending(visited, more, ci * CellBits);
      visited := visited + more;
      ci := ci + 1;
    }
  }

  /** Joining two ascending runs separated by `mid` keeps the order. */
  lemma AppendAscending(a: seq<nat>, b: seq<nat>, mid: nat)
    requires Ascending(a) && Ascending(b)
    requires forall k :: 0 <= k < |a| ==> a[k] < mid
    requires forall k :: 0 <= k < |b| ==> mid <= b[k]
    ensures Ascending(a + b)
  {
  }
}
