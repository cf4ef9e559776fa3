/**
 * The register allocator and the scope stack of the code generator
 * (core/codegen.c).
 *
 * A frame scope hands out the registers of one function frame.  Registers
 * are numbered from 1 (register 0 is never handed out).  `reg_allocated_max`
 * (the "top" here) is the highest register handed out from the unused end
 * of the frame, `reg_touched_max` the highest one ever used, and the free
 * list holds the registers below the top that were given back, as ranges
 * sorted by start that neither overlap nor touch.  A register is available
 * exactly when it is on the free list or above the top; the lemmas below
 * show that an allocation takes exactly the registers it returns out of the
 * available ones, and that freeing puts exactly the freed ones back.
 *
 * The scope stack holds frame, variable and loop scopes.  A popped scope is
 * kept on a free list of its kind and handed out again by the next push of
 * that kind.  Scopes are told apart by an identity number here, standing in
 * for the address of the C structure.
 */
module Codegen {
  import opened Wrappers
  import Words

  /* ----- the free list ------------------------------------------------- */

  /** `struct frame_scope_free_regs`: registers `start` up to, not including, `end`. */
  datatype Range = Range(start: nat, end: nat)

  /** Register `x` is one of the range's. */
  predicate InRange(r: Range, x: nat) {
    r.start <= x < r.end
  }

  /** Register `x` is in one of the list's ranges. */
  predicate Holds(l: seq<Range>, x: nat) {
    |l| > 0 && (Holds(l[..|l| - 1], x) || InRange(l[|l| - 1], x))
  }

  /**
   * The free list's invariant: every range is non-empty and starts at
   * register 1 or above, and each range ends strictly before the next one
   * starts (sorted, not overlapping, and not touching, since touching
   * ranges are merged when a range is inserted).
   */
  predicate Coalesced(l: seq<Range>) {
    NonEmpty(l) && (forall i, j :: 0 <= i < j < |l| ==> l[i].end < l[j].start)
  }

  /** Every range is non-empty and starts at register 1 or above. */
  predicate NonEmpty(l: seq<Range>) {
    forall k :: 0 <= k < |l| ==> 1 <= l[k].start < l[k].end
  }

  /** A list split in two holds the registers of the two parts. */
  lemma {:induction false} HoldsConcat(a: seq<Range>, b: seq<Range>, x: nat)
    ensures Holds(a + b, x) <==> Holds(a, x) || Holds(b, x)
    decreases |b|
  {
    if |b| == 0 {
      assert a + b == a;
    } else {
      var b' := b[..|b| - 1];
      assert (a + b)[..|a + b| - 1] == a + b';
      assert (a + b)[|a + b| - 1] == b[|b| - 1];
      HoldsConcat(a, b', x);
    }
  }

  /** A list whose ranges all lie within [lo, hi) holds only registers in [lo, hi). */
  lemma {:induction false} HoldsWithin(l: seq<Range>, lo: nat, hi: nat, x: nat)
    requires forall k :: 0 <= k < |l| ==> lo <= l[k].start && l[k].end <= hi
    ensures Holds(l, x) ==> lo <= x < hi
    decreases |l|
  {
    if |l| > 0 {
      HoldsWithin(l[..|l| - 1], lo, hi, x);
    }
  }

  /** The list `a + [r] + b` holds the registers of its three parts. */
  lemma HoldsSplit(a: seq<Range>, r: Range, b: seq<Range>, x: nat)
    ensures Holds(a + [r] + b, x) <==> Holds(a, x) || InRange(r, x) || Holds(b, x)
  {
    HoldsConcat(a + [r], b, x);
    HoldsConcat(a, [r], x);
    assert [r][..0] == [];
  }

  /** Splitting a coalesced list at `p`: the entry at `p` is apart from everything else. */
  lemma SplitAt(l: seq<Range>, p: nat, x: nat)
    requires Coalesced(l) && p < |l|
    ensures Holds(l, x) <==> Holds(l[..p], x) || InRange(l[p], x) || Holds(l[p + 1..], x)
    ensures Holds(l[..p], x) ==> x < l[p].start
    ensures Holds(l[p + 1..], x) ==> l[p].end < x
  {
    HoldsAt(l, p, x);
    HoldsWithin(l[..p], 0, l[p].start, x);
    HoldsWithin(l[p + 1..], l[p].end + 1, l[|l| - 1].end, x);
  }

  /** `frame_scope__free_regs_list_remove`: the list without its entry at `p`. */
  function Removed(l: seq<Range>, p: nat): (r: seq<Range>)
    requires p < |l|
    ensures |r| == |l| - 1
    ensures forall k :: 0 <= k < p ==> r[k] == l[k]
    ensures forall k :: p <= k < |r| ==> r[k] == l[k + 1]
  {
    l[..p] + l[p + 1..]
  }

  /** Removing an entry keeps the list coalesced and takes away exactly that entry's registers. */
  lemma RemovedFrees(l: seq<Range>, p: nat)
    requires Coalesced(l) && p < |l|
    ensures Coalesced(Removed(l, p))
    ensures forall x :: Holds(Removed(l, p), x) <==> Holds(l, x) && !InRange(l[p], x)
  {
    var r := Removed(l, p);
    forall x
      ensures Holds(r, x) <==> Holds(l, x) && !InRange(l[p], x)
    {
      SplitAt(l, p, x);
      HoldsConcat(l[..p], l[p + 1..], x);
    }
    forall i, j | 0 <= i < j < |r|
      ensures r[i].end < r[j].start
    {
      if j < p {
      } else if i < p {
        assert r[i] == l[i] && r[j] == l[j + 1];
      } else {
        assert r[i] == l[i + 1] && r[j] == l[j + 1];
      }
    }
  }

  /**
   * `frame_scope__free_regs_list_insert(p, d)`: the range `d` put at
   * position `p`, merged with the range before it when that one ends where
   * `d` starts, and with the range after it when that one starts where `d`
   * ends.
   */
  function Inserted(l: seq<Range>, p: nat, d: Range): (r: seq<Range>)
    requires p <= |l|
  {
    if p > 0 && l[p - 1].end == d.start then
      if p < |l| && d.end == l[p].start then l[..p - 1] + [Range(l[p - 1].start, l[p].end)] + l[p + 1..]
      else l[..p - 1] + [Range(l[p - 1].start, d.end)] + l[p..]
    else if p < |l| && d.end == l[p].start then l[..p] + [Range(d.start, l[p].end)] + l[p + 1..]
    else l[..p] + [d] + l[p..]
  }

  /** `d` fits at position `p`: after the range before it and before the range after it (the asserts of the insertion). */
  predicate FitsAt(l: seq<Range>, p: nat, d: Range) {
    p <= |l| && 1 <= d.start < d.end &&
    (p == 0 || l[p - 1].end <= d.start) && (p == |l| || d.end <= l[p].start)
  }

  /** Every range of the list ends at or below `b`. */
  predicate EndsBy(l: seq<Range>, b: nat) {
    forall k :: 0 <= k < |l| ==> l[k].end <= b
  }

  /** Inserting a range where it fits keeps the list coalesced and adds exactly its registers. */
  lemma InsertedFrees(l: seq<Range>, p: nat, d: Range, b: nat)
    requires Coalesced(l) && FitsAt(l, p, d)
    ensures Coalesced(Inserted(l, p, d))
    ensures forall x :: Holds(Inserted(l, p, d), x) <==>
      Holds(l, x) || InRange(d, x)
    ensures EndsBy(l, b) && d.end <= b ==> EndsBy(Inserted(l, p, d), b)
  {
    if p > 0 && l[p - 1].end == d.start {
      if p < |l| && d.end == l[p].start {
        MergeBoth(l, p, d, b);
      } else {
        MergeBefore(l, p, d, b);
      }
    } else if p < |l| && d.end == l[p].start {
      MergeAfter(l, p, d, b);
    } else {
      MergeNone(l, p, d, b);
    }
  }

  /** Between two ranges that both touch `d`, the three become one. */
  lemma MergeBoth(l: seq<Range>, p: nat, d: Range, b: nat)
    requires Coalesced(l) && FitsAt(l, p, d) && 0 < p < |l|
    requires l[p - 1].end == d.start && d.end == l[p].start
    ensures var r := l[..p - 1] + [Range(l[p - 1].start, l[p].end)] + l[p + 1..];
      Coalesced(r) && (forall x :: Holds(r, x) <==> Holds(l, x) || InRange(d, x)) &&
      (EndsBy(l, b) && d.end <= b ==> EndsBy(r, b))
  {
    var n := Range(l[p - 1].start, l[p].end);
    var r := l[..p - 1] + [n] + l[p + 1..];
    assert Coalesced(r) && (EndsBy(l, b) && d.end <= b ==> EndsBy(r, b)) by {
      ReplaceKeeps(l, p - 1, 2, n, b);
      assert p - 1 + 2 == p + 1;
    }
    MergeBothHolds(l, p, d);
  }

  /** The registers of the list `MergeBoth` builds. */
  lemma MergeBothHolds(l: seq<Range>, p: nat, d: Range)
    requires Coalesced(l) && FitsAt(l, p, d) && 0 < p < |l|
    requires l[p - 1].end == d.start && d.end == l[p].start
    ensures forall x :: Holds(l[..p - 1] + [Range(l[p - 1].start, l[p].end)] + l[p + 1..], x) <==>
      Holds(l, x) || InRange(d, x)
  {
    var n := Range(l[p - 1].start, l[p].end);
    var r := l[..p - 1] + [n] + l[p + 1..];
    forall x
      ensures Holds(r, x) <==> Holds(l, x) || InRange(d, x)
    {
      HoldsAt(l, p, x);
      HoldsPrefix(l, p, x);
      HoldsSplit(l[..p - 1], n, l[p + 1..], x);
    }
  }

  /** Right after a range that ends where `d` starts, that range grows. */
  lemma MergeBefore(l: seq<Range>, p: nat, d: Range, b: nat)
    requires Coalesced(l) && FitsAt(l, p, d) && 0 < p
    requires l[p - 1].end == d.start && !(p < |l| && d.end == l[p].start)
    ensures var r := l[..p - 1] + [Range(l[p - 1].start, d.end)] + l[p..];
      Coalesced(r) && (forall x :: Holds(r, x) <==> Holds(l, x) || InRange(d, x)) &&
      (EndsBy(l, b) && d.end <= b ==> EndsBy(r, b))
  {
    var n := Range(l[p - 1].start, d.end);
    var r := l[..p - 1] + [n] + l[p..];
    assert Coalesced(r) && (EndsBy(l, b) && d.end <= b ==> EndsBy(r, b)) by {
      ReplaceKeeps(l, p - 1, 1, n, b);
      assert p - 1 + 1 == p;
    }
    MergeBeforeHolds(l, p, d);
  }

  /** The registers of the list `MergeBefore` builds. */
  lemma MergeBeforeHolds(l: seq<Range>, p: nat, d: Range)
    requires Coalesced(l) && FitsAt(l, p, d) && 0 < p
    requires l[p - 1].end == d.start && !(p < |l| && d.end == l[p].start)
    ensures forall x :: Holds(l[..p - 1] + [Range(l[p - 1].start, d.end)] + l[p..], x) <==>
      Holds(l, x) || InRange(d, x)
  {
    var n := Range(l[p - 1].start, d.end);
    var r := l[..p - 1] + [n] + l[p..];
    forall x
      ensures Holds(r, x) <==> Holds(l, x) || InRange(d, x)
    {
      HoldsAt(l, p - 1, x);
      HoldsSplit(l[..p - 1], n, l[p..], x);
    }
  }

  /** Right before a range that starts where `d` ends, that range grows. */
  lemma MergeAfter(l: seq<Range>, p: nat, d: Range, b: nat)
    requires Coalesced(l) && FitsAt(l, p, d) && p < |l|
    requires d.end == l[p].start && !(p > 0 && l[p - 1].end == d.start)
    ensures var r := l[..p] + [Range(d.start, l[p].end)] + l[p + 1..];
      Coalesced(r) && (forall x :: Holds(r, x) <==> Holds(l, x) || InRange(d, x)) &&
      (EndsBy(l, b) && d.end <= b ==> EndsBy(r, b))
  {
    var n := Range(d.start, l[p].end);
    var r := l[..p] + [n] + l[p + 1..];
    assert Coalesced(r) && (EndsBy(l, b) && d.end <= b ==> EndsBy(r, b)) by {
      ReplaceKeeps(l, p, 1, n, b);
    }
    MergeAfterHolds(l, p, d);
  }

  /** The registers of the list `MergeAfter` builds. */
  lemma MergeAfterHolds(l: seq<Range>, p: nat, d: Range)
    requires Coalesced(l) && FitsAt(l, p, d) && p < |l|
    requires d.end == l[p].start && !(p > 0 && l[p - 1].end == d.start)
    ensures forall x :: Holds(l[..p] + [Range(d.start, l[p].end)] + l[p + 1..], x) <==>
      Holds(l, x) || InRange(d, x)
  {
    var n := Range(d.start, l[p].end);
    var r := l[..p] + [n] + l[p + 1..];
    forall x
      ensures Holds(r, x) <==> Holds(l, x) || InRange(d, x)
    {
      HoldsAt(l, p, x);
      HoldsSplit(l[..p], n, l[p + 1..], x);
    }
  }

  /** Between two ranges that do not touch `d`, a new entry. */
  lemma MergeNone(l: seq<Range>, p: nat, d: Range, b: nat)
    requires Coalesced(l) && FitsAt(l, p, d)
    requires !(p > 0 && l[p - 1].end == d.start) && !(p < |l| && d.end == l[p].start)
    ensures var r := l[..p] + [d] + l[p..];
      Coalesced(r) && (forall x :: Holds(r, x) <==> Holds(l, x) || InRange(d, x)) &&
      (EndsBy(l, b) && d.end <= b ==> EndsBy(r, b))
  {
    var r := l[..p] + [d] + l[p..];
    assert Coalesced(r) && (EndsBy(l, b) && d.end <= b ==> EndsBy(r, b)) by {
      ReplaceKeeps(l, p, 0, d, b);
      assert p + 0 == p;
    }
    MergeNoneHolds(l, p, d);
  }

  /** The registers of the list `MergeNone` builds. */
  lemma MergeNoneHolds(l: seq<Range>, p: nat, d: Range)
    requires Coalesced(l) && FitsAt(l, p, d)
    requires !(p > 0 && l[p - 1].end == d.start) && !(p < |l| && d.end == l[p].start)
    ensures forall x :: Holds(l[..p] + [d] + l[p..], x) <==>
      Holds(l, x) || InRange(d, x)
  {
    var r := l[..p] + [d] + l[p..];
    forall x
      ensures Holds(r, x) <==> Holds(l, x) || InRange(d, x)
    {
      HoldsAround(l, p, d, x);
    }
  }

  /** The registers of a list are those before `p`, those of entry `p` and those after it. */
  lemma HoldsAt(l: seq<Range>, p: nat, x: nat)
    requires p < |l|
    ensures Holds(l, x) <==> Holds(l[..p], x) || InRange(l[p], x) || Holds(l[p + 1..], x)
  {
    assert l == l[..p] + [l[p]] + l[p + 1..];
    HoldsSplit(l[..p], l[p], l[p + 1..], x);
  }

  /** The registers of the first `p` entries are those of the first `p - 1` and those of entry `p - 1`. */
  lemma HoldsPrefix(l: seq<Range>, p: nat, x: nat)
    requires 0 < p <= |l|
    ensures Holds(l[..p], x) <==> Holds(l[..p - 1], x) || InRange(l[p - 1], x)
  {
    assert l[..p][..p - 1] == l[..p - 1];
  }

  /** A range put between the two halves of a list adds exactly its registers. */
  lemma HoldsAround(l: seq<Range>, p: nat, d: Range, x: nat)
    requires p <= |l|
    ensures Holds(l[..p] + [d] + l[p..], x) <==> Holds(l, x) || InRange(d, x)
  {
    HoldsSplit(l[..p], d, l[p..], x);
    assert l == l[..p] + l[p..];
    HoldsConcat(l[..p], l[p..], x);
  }

  /** Replacing `c` entries from `m` on by one range that fits between the neighbours keeps a list coalesced. */
  lemma ReplaceKeeps(l: seq<Range>, m: nat, c: nat, n: Range, b: nat)
    requires Coalesced(l) && m + c <= |l| && 1 <= n.start < n.end
    requires m == 0 || l[m - 1].end < n.start
    requires m + c == |l| || n.end < l[m + c].start
    ensures Coalesced(l[..m] + [n] + l[m + c..])
    ensures EndsBy(l, b) && n.end <= b ==> EndsBy(l[..m] + [n] + l[m + c..], b)
  {
    var r := l[..m] + [n] + l[m + c..];
    ReplaceAt(l, m, c, n);
    ReplaceEndsBy(l, m, c, n, b);
    forall i, j | 0 <= i < j < |r|
      ensures r[i].end < r[j].start
    {
      if j < m {
        assert r[i] == l[i] && r[j] == l[j];
      } else if j == m {
        assert r[i] == l[i] && r[j] == n;
        assert i == m - 1 || l[i].end < l[m - 1].start;
      } else if i == m {
        assert r[j] == l[j - 1 + c];
        assert j - 1 + c == m + c || l[m + c].end < l[j - 1 + c].start;
      } else if i < m {
        assert r[i] == l[i] && r[j] == l[j - 1 + c];
      } else {
        assert r[i] == l[i - 1 + c] && r[j] == l[j - 1 + c];
      }
    }
  }

  /** Replacing `c` entries from `m` on by a non-empty range keeps the entries non-empty, and ending by `b` if the range does. */
  lemma ReplaceEndsBy(l: seq<Range>, m: nat, c: nat, n: Range, b: nat)
    requires Coalesced(l) && m + c <= |l| && 1 <= n.start < n.end
    ensures NonEmpty(l[..m] + [n] + l[m + c..])
    ensures EndsBy(l, b) && n.end <= b ==> EndsBy(l[..m] + [n] + l[m + c..], b)
  {
    ReplaceAt(l, m, c, n);
  }

  /** The entries of a list with `c` entries from `m` on replaced by `n`. */
  lemma ReplaceAt(l: seq<Range>, m: nat, c: nat, n: Range)
    requires m + c <= |l|
    ensures |l[..m] + [n] + l[m + c..]| == |l| - c + 1
    ensures forall k :: 0 <= k < |l| - c + 1 ==>
      (l[..m] + [n] + l[m + c..])[k] == (if k < m then l[k] else if k == m then n else l[k - 1 + c])
  {
  }

  /* ----- the registers of a frame ---------------------------------------- */

  /**
   * The register bookkeeping of a `struct frame_scope`: `touched` is
   * `reg_touched_max`, `top` is `reg_allocated_max` and `free` the free list.
   */
  datatype RegState = RegState(touched: nat, top: nat, free: seq<Range>)

  /** A frame scope as it is created or reset: nothing allocated. */
  const Empty: RegState := RegState(0, 0, [])

  /**
   * The invariant the allocator keeps: the free list is coalesced, lies
   * below the top without reaching it (a free range touching the top is
   * absorbed into it), and the top never exceeds the touched maximum.
   */
  predicate Consistent(f: RegState) {
    Coalesced(f.free) && EndsBy(f.free, f.top) && f.top <= f.touched
  }

  /** Register `x` can be handed out: it is on the free list or above the top. */
  predicate Available(f: RegState, x: nat) {
    Holds(f.free, x) || x > f.top
  }

  /** The number of registers in a range. */
  function Size(r: Range): int {
    r.end - r.start
  }

  /** Where `frame_scope_alloc_regs` takes its registers from. */
  datatype Source = Exact(index: nat) | Split(index: nat) | Fresh

  /**
   * The scan of `frame_scope_alloc_regs` over the free list from entry `i`
   * on, `best` being the first of the smallest ranges larger than `n` seen
   * so far: a range of exactly `n` registers ends the scan; otherwise the
   * best larger range is split, and without one the registers come from
   * above the top.
   */
  function Scan(l: seq<Range>, n: nat, i: nat, best: Option<nat>): (s: Source)
    requires i <= |l|
    requires best.Some? ==> best.value < i && Size(l[best.value]) > n
    ensures s.Exact? ==> i <= s.index < |l| && Size(l[s.index]) == n
    ensures s.Split? ==> s.index < |l| && Size(l[s.index]) > n
    decreases |l| - i
  {
    if i == |l| then (if best.Some? then Split(best.value) else Fresh)
    else if Size(l[i]) == n then Exact(i)
    else if Size(l[i]) > n && (best.None? || Size(l[i]) < Size(l[best.value])) then Scan(l, n, i + 1, Some(i))
    else Scan(l, n, i + 1, best)
  }

  /** The choice `frame_scope_alloc_regs(n)` makes on a free list. */
  function Choose(l: seq<Range>, n: nat): Source {
    Scan(l, n, 0, None)
  }

  /**
   * The choice is first fit for an exact size, best fit otherwise: the
   * first range of exactly `n` registers if there is one; else the
   * smallest range larger than `n`, the first of equal ones; else none.
   */
  lemma ChooseFits(l: seq<Range>, n: nat)
    ensures Choose(l, n).Exact? ==>
      var i := Choose(l, n).index;
      i < |l| && Size(l[i]) == n && forall k :: 0 <= k < i ==> Size(l[k]) != n
    ensures Choose(l, n).Split? ==>
      var j := Choose(l, n).index;
      j < |l| && Size(l[j]) > n &&
      (forall k :: 0 <= k < |l| ==> Size(l[k]) != n) &&
      (forall k :: 0 <= k < |l| && Size(l[k]) > n ==> Size(l[j]) <= Size(l[k])) &&
      (forall k :: 0 <= k < j && Size(l[k]) > n ==> Size(l[j]) < Size(l[k]))
    ensures Choose(l, n).Fresh? ==> forall k :: 0 <= k < |l| ==> Size(l[k]) < n
  {
    ScanFits(l, n, 0, None);
  }

  /** What the scan has established about the entries before `i`. */
  predicate ScannedUpTo(l: seq<Range>, n: nat, i: nat, best: Option<nat>)
    requires i <= |l|
  {
    (forall k :: 0 <= k < i ==> Size(l[k]) != n) &&
    (best.None? ==> forall k :: 0 <= k < i ==> Size(l[k]) < n) &&
    (best.Some? ==>
       best.value < i && Size(l[best.value]) > n &&
       (forall k :: 0 <= k < i && Size(l[k]) > n ==> Size(l[best.value]) <= Size(l[k])) &&
       (forall k :: 0 <= k < best.value && Size(l[k]) > n ==> Size(l[best.value]) < Size(l[k])))
  }

  /**
   * Choice `c` is first fit for an exact size and best fit otherwise (the
   * property `ChooseFits` spells out).
   */
  predicate Fits(l: seq<Range>, n: nat, c: Source) {
    (c.Exact? ==>
       c.index < |l| && Size(l[c.index]) == n && forall k :: 0 <= k < c.index ==> Size(l[k]) != n) &&
    (c.Split? ==>
       c.index < |l| && Size(l[c.index]) > n &&
       (forall k :: 0 <= k < |l| ==> Size(l[k]) != n) &&
       (forall k :: 0 <= k < |l| && Size(l[k]) > n ==> Size(l[c.index]) <= Size(l[k])) &&
       (forall k :: 0 <= k < c.index && Size(l[k]) > n ==> Size(l[c.index]) < Size(l[k]))) &&
    (c.Fresh? ==> forall k :: 0 <= k < |l| ==> Size(l[k]) < n)
  }

  /** The scan from `i` on completes what was established before `i`. */
  lemma {:induction false} ScanFits(l: seq<Range>, n: nat, i: nat, best: Option<nat>)
    requires i <= |l| && ScannedUpTo(l, n, i, best)
    ensures Fits(l, n, Scan(l, n, i, best))
    decreases |l| - i
  {
    if i < |l| && Size(l[i]) != n {
      var next := if Size(l[i]) > n && (best.None? || Size(l[i]) < Size(l[best.value])) then Some(i) else best;
      ScanStep(l, n, i, best, next);
      assert Scan(l, n, i, best) == Scan(l, n, i + 1, next);
      ScanFits(l, n, i + 1, next);
    }
  }

  /** One entry further, with the choice the scan makes there. */
  lemma ScanStep(l: seq<Range>, n: nat, i: nat, best: Option<nat>, next: Option<nat>)
    requires i < |l| && ScannedUpTo(l, n, i, best) && Size(l[i]) != n
    requires next == if Size(l[i]) > n && (best.None? || Size(l[i]) < Size(l[best.value])) then Some(i) else best
    ensures ScannedUpTo(l, n, i + 1, next)
  {
  }

  /**
   * `frame_scope_alloc_regs(n)` on the bookkeeping: the first register of
   * the block handed out, and the new bookkeeping.  An exact-size free
   * range is removed, a larger one loses its first `n` registers, and
   * otherwise the block is taken above the top, raising the top by `n` and
   * the touched maximum with it.
   */
  function Allocate(f: RegState, n: nat): (RegState, nat) {
    match Choose(f.free, n)
    case Exact(i) => (RegState(f.touched, f.top, Removed(f.free, i)), f.free[i].start)
    case Split(i) =>
      (RegState(f.touched, f.top, f.free[i := Range(f.free[i].start + n, f.free[i].end)]), f.free[i].start)
    case Fresh =>
      (RegState(if f.top + n > f.touched then f.top + n else f.touched, f.top + n, f.free), f.top + 1)
  }

  /**
   * Allocation keeps the invariant, hands out `n` registers from 1 up that
   * were all available, and makes exactly those unavailable; the touched
   * maximum never decreases and covers the new top.
   */
  lemma AllocateTakes(f: RegState, n: nat)
    requires Consistent(f) && n >= 1
    ensures Consistent(Allocate(f, n).0) && Allocate(f, n).1 >= 1
    ensures Allocate(f, n).0.touched >= f.touched
    ensures Allocate(f, n).1 + n - 1 <= Allocate(f, n).0.touched
    ensures forall x: nat :: Allocate(f, n).1 <= x < Allocate(f, n).1 + n ==> Available(f, x)
    ensures forall x: nat :: Available(Allocate(f, n).0, x) <==>
                             Available(f, x) && !(Allocate(f, n).1 <= x < Allocate(f, n).1 + n)
  {
    match Choose(f.free, n)
    case Exact(i) => TakeExact(f, n, i);
    case Split(i) => TakeSplit(f, n, i);
    case Fresh =>
      forall x: nat | Holds(f.free, x)
        ensures x < f.top
      {
        HoldsWithin(f.free, 0, f.top, x);
      }
  }

  /** Taking a whole free range of `n` registers. */
  lemma TakeExact(f: RegState, n: nat, i: nat)
    requires Consistent(f) && n >= 1 && i < |f.free| && Size(f.free[i]) == n
    ensures var g := RegState(f.touched, f.top, Removed(f.free, i));
      var reg := f.free[i].start;
      Consistent(g) && reg >= 1 && reg + n <= f.top &&
      (forall x: nat :: reg <= x < reg + n ==> Available(f, x)) &&
      (forall x: nat :: Available(g, x) <==> Available(f, x) && !(reg <= x < reg + n))
  {
    var l := f.free;
    RemovedFrees(l, i);
    forall x: nat | InRange(l[i], x)
      ensures Holds(l, x) && x < f.top
    {
      HoldsAt(l, i, x);
    }
    assert l[i].end <= f.top;
  }

  /** Taking the first `n` registers of a larger free range. */
  lemma TakeSplit(f: RegState, n: nat, i: nat)
    requires Consistent(f) && n >= 1 && i < |f.free| && Size(f.free[i]) > n
    ensures var l := f.free;
      var g := RegState(f.touched, f.top, l[i := Range(l[i].start + n, l[i].end)]);
      var reg := l[i].start;
      Consistent(g) && reg >= 1 && reg + n <= f.top &&
      (forall x: nat :: reg <= x < reg + n ==> Available(f, x)) &&
      (forall x: nat :: Available(g, x) <==> Available(f, x) && !(reg <= x < reg + n))
  {
    var l := f.free;
    var m := Range(l[i].start + n, l[i].end);
    assert l[i := m] == l[..i] + [m] + l[i + 1..];
    ReplaceKeeps(l, i, 1, m, f.top);
    assert l[i].end <= f.top;
    SplitRegisters(l, i, n);
    var g := RegState(f.touched, f.top, l[i := m]);
    forall x: nat
      ensures Available(g, x) <==> Available(f, x) && !(l[i].start <= x < l[i].start + n)
    {
      assert Holds(g.free, x) <==> Holds(l, x) && !(l[i].start <= x < l[i].start + n);
    }
  }

  /** The registers of the list once the first `n` of entry `i` are cut off. */
  lemma SplitRegisters(l: seq<Range>, i: nat, n: nat)
    requires Coalesced(l) && n >= 1 && i < |l| && Size(l[i]) > n
    ensures forall x: nat :: Holds(l[i := Range(l[i].start + n, l[i].end)], x) <==>
      Holds(l, x) && !(l[i].start <= x < l[i].start + n)
    ensures forall x: nat :: l[i].start <= x < l[i].start + n ==> Holds(l, x)
  {
    var m := Range(l[i].start + n, l[i].end);
    forall x: nat
      ensures Holds(l[i := m], x) <==> Holds(l, x) && !(l[i].start <= x < l[i].start + n)
      ensures l[i].start <= x < l[i].start + n ==> Holds(l, x)
    {
      HoldsUpdate(l, i, m, x);
      SplitAt(l, i, x);
    }
  }

  /** The registers of a list with entry `i` replaced by `m`. */
  lemma HoldsUpdate(l: seq<Range>, i: nat, m: Range, x: nat)
    requires i < |l|
    ensures Holds(l[i := m], x) <==> Holds(l[..i], x) || InRange(m, x) || Holds(l[i + 1..], x)
  {
    HoldsAt(l[i := m], i, x);
    assert l[i := m][..i] == l[..i] && l[i := m][i + 1..] == l[i + 1..];
  }

  /** The first entry from `i` on that does not start below `s`, or the end of the list. */
  function PositionFrom(l: seq<Range>, s: nat, i: nat): (p: nat)
    requires i <= |l|
    ensures i <= p <= |l|
    ensures forall k :: i <= k < p ==> l[k].start < s
    ensures p < |l| ==> s <= l[p].start
    decreases |l| - i
  {
    if i == |l| || s <= l[i].start then i else PositionFrom(l, s, i + 1)
  }

  /** Where a freed block starting at `s` belongs in the sorted free list. */
  function Position(l: seq<Range>, s: nat): (p: nat)
    ensures p <= |l|
    ensures forall k :: 0 <= k < p ==> l[k].start < s
    ensures p < |l| ==> s <= l[p].start
  {
    PositionFrom(l, s, 0)
  }

  /**
   * `frame_scope_free_regs(s, n)` on the bookkeeping, as intended: a block
   * at the top lowers the top, and lowers it further past the last free
   * range when that range then reaches the top; any other block goes into
   * the free list at its sorted position.
   */
  function Release(f: RegState, s: nat, n: nat): RegState
    requires Consistent(f) && n >= 1 && 1 <= s && s + n - 1 <= f.top
  {
    if s + n - 1 == f.top then
      var top := f.top - n;
      var k := |f.free| - 1;
      if |f.free| > 0 && f.free[k].end - 1 == top then RegState(f.touched, f.free[k].start - 1, f.free[..k])
      else RegState(f.touched, top, f.free)
    else RegState(f.touched, f.top, Inserted(f.free, Position(f.free, s), Range(s, s + n)))
  }

  /** The block `s` to `s + n - 1` is allocated: none of it is available. */
  predicate InUse(f: RegState, s: nat, n: nat) {
    forall x: nat :: s <= x < s + n ==> !Available(f, x)
  }

  /**
   * Freeing an allocated block keeps the invariant and makes exactly its
   * registers available again, leaving the touched maximum alone.
   */
  lemma ReleaseReturns(f: RegState, s: nat, n: nat)
    requires Consistent(f) && n >= 1 && 1 <= s && s + n - 1 <= f.top && InUse(f, s, n)
    ensures Consistent(Release(f, s, n)) && Release(f, s, n).touched == f.touched
    ensures forall x: nat :: Available(Release(f, s, n), x) <==> Available(f, x) || s <= x < s + n
  {
    var l := f.free;
    if s + n - 1 == f.top {
      if |l| > 0 && l[|l| - 1].end - 1 == f.top - n {
        ReleaseAbsorbs(f, s, n);
      } else if |l| > 0 {
        var k := |l| - 1;
        HoldsAt(l, k, l[k].end - 1);
        assert Available(f, l[k].end - 1);
      }
    } else {
      ReleaseInserts(f, s, n);
    }
  }

  /** Freeing the top block when the last free range then reaches the top: both go. */
  lemma ReleaseAbsorbs(f: RegState, s: nat, n: nat)
    requires Consistent(f) && n >= 1 && 1 <= s && s + n - 1 == f.top && InUse(f, s, n)
    requires |f.free| > 0 && f.free[|f.free| - 1].end - 1 == f.top - n
    ensures Consistent(Release(f, s, n))
    ensures forall x: nat :: Available(Release(f, s, n), x) <==> Available(f, x) || s <= x < s + n
  {
    var l := f.free;
    var k := |l| - 1;
    assert Release(f, s, n) == RegState(f.touched, l[k].start - 1, l[..k]);
    forall x: nat
      ensures Holds(l, x) <==> Holds(l[..k], x) || InRange(l[k], x)
      ensures Holds(l[..k], x) ==> x < l[k].start
    {
      SplitAt(l, k, x);
      assert l[k + 1..] == [];
    }
  }

  /** Freeing a block below the top: it goes into the list where it fits. */
  lemma ReleaseInserts(f: RegState, s: nat, n: nat)
    requires Consistent(f) && n >= 1 && 1 <= s && s + n - 1 < f.top && InUse(f, s, n)
    ensures Consistent(Release(f, s, n))
    ensures forall x: nat :: Available(Release(f, s, n), x) <==> Available(f, x) || s <= x < s + n
  {
    var l := f.free;
    var p := Position(l, s);
    var d := Range(s, s + n);
    assert !Available(f, s);
    if p > 0 {
      HoldsAt(l, p - 1, s);
    }
    if p < |l| {
      HoldsAt(l, p, l[p].start);
      assert Available(f, l[p].start);
    }
    InsertedFrees(l, p, d, f.top);
  }

  /** Every variable's register is one that is in use. */
  predicate VarsInUse(f: RegState, vars: map<string, nat>) {
    forall v :: v in vars ==> vars[v] >= 1 && !Available(f, vars[v])
  }

  /** No two variables share a register. */
  predicate Injective(vars: map<string, nat>) {
    forall v, w :: v in vars && w in vars && v != w ==> vars[v] != vars[w]
  }

  /** An allocation leaves the variables' registers in use. */
  lemma AllocateKeepsVars(f: RegState, n: nat, vars: map<string, nat>)
    requires Consistent(f) && n >= 1 && VarsInUse(f, vars)
    ensures Consistent(Allocate(f, n).0) && VarsInUse(Allocate(f, n).0, vars)
  {
    AllocateTakes(f, n);
  }

  /** Freeing a block that holds no variable leaves the variables' registers in use. */
  lemma ReleaseKeepsVars(f: RegState, s: nat, n: nat, vars: map<string, nat>)
    requires Consistent(f) && n >= 1 && 1 <= s && s + n - 1 <= f.top && InUse(f, s, n)
    requires VarsInUse(f, vars) && forall v :: v in vars ==> !(s <= vars[v] < s + n)
    ensures Consistent(Release(f, s, n)) && VarsInUse(Release(f, s, n), vars)
  {
    ReleaseReturns(f, s, n);
  }

  /* ----- as written: the search for the insertion point ------------------- */

  /** How the as-written search goes wrong. */
  datatype Fault =
    | ReadPastEnd(index: nat)  // reads the free list at an index past its end
    | Crossed                  // the check that the bounds have not crossed fails

  /**
   * Where `frame_scope_free_regs` puts a block starting at `s` that does not
   * reach the top, as written: in front when it starts before the first
   * range, at the back only when it starts strictly after the last range's
   * end, and otherwise where a binary search over the list stops.
   */
  function PlaceAsWritten(l: seq<Range>, s: nat): Result<nat, Fault> {
    if |l| == 0 || s < l[0].start then Ok(0)
    else if s > l[|l| - 1].end then Ok(|l|)
    else SearchAsWritten(l, s, 0, |l|)
  }

  /** The binary search of `frame_scope_free_regs` between `lo` and `hi`, as written. */
  function SearchAsWritten(l: seq<Range>, s: nat, lo: int, hi: int): Result<nat, Fault>
    requires 0 <= lo <= hi
    decreases hi - lo
  {
    var m := lo + (hi - lo) / 2;
    if m >= |l| then Err(ReadPastEnd(m))
    else if s < l[m].start then
      if m > 0 && s > l[m - 1].start then Ok(m)
      else if lo > m - 1 then Err(Crossed)
      else SearchAsWritten(l, s, lo, m - 1)
    else
      if m + 1 < |l| && s < l[m + 1].start then Ok(m + 1)
      else if m + 1 > hi then Err(Crossed)
      else SearchAsWritten(l, s, m + 1, hi)
  }

  /** With an empty free list, one register comes from just above the top. */
  lemma AllocateOneFresh(k: nat)
    ensures Allocate(RegState(k, k, []), 1) == (RegState(k + 1, k + 1, []), k + 1)
  {
    assert Choose([], 1) == Fresh;
  }

  /**
   * Allocating registers 1 to 4 one at a time (see `AllocateOneFresh`) and
   * freeing register 2 leaves the free list [2, 3) with the top at 4.
   * Freeing register 3 next is a legitimate call, and the block starts
   * exactly where the last range ends: the test for inserting at the back
   * misses it, and the search reads entry 1 of a one-entry list.
   */
  lemma PlaceAsWrittenReadsPastEnd()
    ensures Release(RegState(4, 4, []), 2, 1) == RegState(4, 4, [Range(2, 3)])
    ensures Consistent(RegState(4, 4, [Range(2, 3)])) && InUse(RegState(4, 4, [Range(2, 3)]), 3, 1)
    ensures PlaceAsWritten([Range(2, 3)], 3) == Err(ReadPastEnd(1))
    ensures Position([Range(2, 3)], 3) == 1
  {
    var l := [Range(2, 3)];
    assert Position([], 2) == 0;
    assert Inserted([], 0, Range(2, 3)) == l;
    assert l[..0] == [];
    assert !Holds(l, 3);
    assert SearchAsWritten(l, 3, 0, 1) == SearchAsWritten(l, 3, 1, 1);
  }

  /**
   * The check after splitting a free range in `frame_scope_alloc_regs`, as
   * written: at least two registers must remain in the range.
   */
  predicate SplitCheckAsWritten(rest: Range) {
    rest.start + 1 < rest.end
  }

  /**
   * Allocating 3 registers, then 1, then freeing the first 3 leaves the
   * free range [1, 4).  Allocating 2 registers splits it and leaves one
   * register, which the as-written check rejects although the split is
   * right.
   */
  lemma SplitCheckRejectsOneLeft()
    ensures Allocate(Empty, 3) == (RegState(3, 3, []), 1)
    ensures Allocate(RegState(3, 3, []), 1) == (RegState(4, 4, []), 4)
    ensures Release(RegState(4, 4, []), 1, 3) == RegState(4, 4, [Range(1, 4)])
    ensures Allocate(RegState(4, 4, [Range(1, 4)]), 2) == (RegState(4, 4, [Range(3, 4)]), 1)
    ensures !SplitCheckAsWritten(Range(3, 4))
  {
    assert Choose([], 3) == Fresh;
    assert Choose([], 1) == Fresh;
    assert Position([], 1) == 0;
    assert Inserted([], 0, Range(1, 4)) == [Range(1, 4)];
    assert Scan([Range(1, 4)], 2, 1, Some(0)) == Split(0);
    assert Choose([Range(1, 4)], 2) == Split(0);
    assert [Range(1, 4)][0 := Range(3, 4)] == [Range(3, 4)];
  }

  /* ----- function metadata ------------------------------------------------ */

  /** `struct zis_func_obj_meta`: argument counts and the number of registers. */
  datatype FuncMeta = FuncMeta(na: nat, no: nat, nr: nat)

  const UCharMax: nat := 255
  const UShrtMax: nat := 65535

  /**
   * `frame_scope_set_argc`: the metadata recorded for `nArgs` arguments and
   * `nOpt` optional ones, both `size_t` values, or None when there are too
   * many.  SIZE_MAX optional arguments (any number) is allowed and, cast to
   * `unsigned char`, is recorded as 255.
   */
  function SetArgc(w: Words.Width, nArgs: nat, nOpt: nat): (r: Option<FuncMeta>)
    requires nArgs < Words.Modulus(w) && nOpt < Words.Modulus(w)
    ensures r.Some? <==> nArgs <= UCharMax && (nOpt <= UCharMax || nOpt == Words.Modulus(w) - 1)
    ensures r.Some? ==> r.value.na == nArgs && r.value.nr == 0 && r.value.no <= UCharMax
    ensures r.Some? && nOpt <= UCharMax ==> r.value.no == nOpt
    ensures r.Some? && nOpt == Words.Modulus(w) - 1 ==> r.value.no == UCharMax
  {
    if nArgs > UCharMax || (nOpt > UCharMax && nOpt != Words.Modulus(w) - 1) then None
    else Some(FuncMeta(nArgs, nOpt % 256, 0))
  }

  /**
   * The limit of `frame_scope_gen_func`: None when `reg_touched_max` is
   * USHRT_MAX or more, else the metadata with room for registers 0 to
   * `reg_touched_max`, a count that fits an `unsigned short`.
   */
  function GenFuncMeta(touched: nat, m: FuncMeta): (r: Option<FuncMeta>)
    ensures r.Some? <==> touched < UShrtMax
    ensures r.Some? ==> r.value.nr == touched + 1 && r.value.nr <= UShrtMax
    ensures r.Some? ==> r.value.na == m.na && r.value.no == m.no
  {
    if touched >= UShrtMax then None else Some(m.(nr := touched + 1))
  }

  /**
   * Every register an allocation hands out fits the frame's register count:
   * when the frame can still be turned into a function, the block lies
   * below `nr`.
   */
  lemma AllocatedFitsFrame(f: RegState, n: nat, m: FuncMeta)
    requires Consistent(f) && n >= 1
    requires GenFuncMeta(Allocate(f, n).0.touched, m).Some?
    ensures Allocate(f, n).1 + n <= GenFuncMeta(Allocate(f, n).0.touched, m).value.nr
  {
    AllocateTakes(f, n);
  }

  /* ----- frame and variable scopes ---------------------------------------- */

  /**
   * `struct frame_scope` without its assembler: the register bookkeeping
   * and the variable map from names to registers.
   */
  class FrameScope {
    var touched: nat
    var top: nat
    var free: seq<Range>
    var vars: map<string, nat>

    /** The register bookkeeping as a value. */
    function State(): RegState
      reads this
    {
      RegState(touched, top, free)
    }

    /**
     * The bookkeeping is consistent, and every variable has its own
     * register, one that is in use.
     */
    ghost predicate Valid()
      reads this
    {
      Consistent(State()) && VarsInUse(State(), vars) && Injective(vars)
    }

    /** `frame_scope_create`: no register used, no variable. */
    constructor()
      ensures State() == Empty && vars == map[] && Valid()
    {
      touched, top, free, vars := 0, 0, [], map[];
    }

    /** `frame_scope_reset`: back to the state of a new frame scope. */
    method Reset()
      modifies this
      ensures State() == Empty && vars == map[] && Valid()
    {
      touched, top, free, vars := 0, 0, [], map[];
    }

    /** `frame_scope__free_regs_list_remove`: deletes entry `p`, keeping the order. */
    method ListRemove(p: nat)
      requires p < |free|
      modifies this
      ensures free == Removed(old(free), p)
      ensures touched == old(touched) && top == old(top) && vars == old(vars)
    {
      free := free[..p] + free[p + 1..];
    }

    /** `frame_scope__free_regs_list_insert`: puts `d` at `p`, merging it with touching neighbours. */
    method ListInsert(p: nat, d: Range)
      requires p <= |free|
      modifies this
      ensures free == Inserted(old(free), p, d)
      ensures touched == old(touched) && top == old(top) && vars == old(vars)
    {
      ghost var l := free;
      if p > 0 && free[p - 1].end == d.start {
        if p < |free| && d.end == free[p].start {
          free := free[p - 1 := Range(free[p - 1].start, free[p].end)];
          ListRemove(p);
          assert free == l[..p - 1] + [Range(l[p - 1].start, l[p].end)] + l[p + 1..];
        } else {
          free := free[p - 1 := Range(free[p - 1].start, d.end)];
          assert free == l[..p - 1] + [Range(l[p - 1].start, d.end)] + l[p..];
        }
        return;
      }
      if p < |free| && d.end == free[p].start {
        free := free[p := Range(d.start, free[p].end)];
        assert free == l[..p] + [Range(d.start, l[p].end)] + l[p + 1..];
        return;
      }
      free := free[..p] + [d] + free[p..];
    }

    /**
     * `frame_scope_alloc_regs(n)`: takes the registers from where the scan
     * of the free list points, or from above the top.
     */
    method AllocRegs(n: nat) returns (reg: nat)
      requires Valid() && n >= 1
      modifies this
      ensures (State(), reg) == Allocate(old(State()), n)
      ensures vars == old(vars) && Valid()
    {
      AllocateKeepsVars(State(), n, vars);
      var c := ScanFreeList(n);
      match c
      case Exact(i) =>
        reg := free[i].start;
        ListRemove(i);
      case Split(b) =>
        reg := free[b].start;
        free := free[b := Range(reg + n, free[b].end)];
        assert free[b].start < free[b].end;
      case Fresh =>
        reg := top + 1;
        top := top + n;
        if top > touched {
          touched := top;
        }
    }

    /**
     * The loop of `frame_scope_alloc_regs(n)` over the free list: stops at
     * the first range of exactly `n` registers, remembering the first of
     * the smallest larger ones on the way.
     */
    method ScanFreeList(n: nat) returns (c: Source)
      ensures c == Choose(free, n)
    {
      var l := free;
      var best: Option<nat> := None;
      var i := 0;
      while i < |l|
        invariant i <= |l|
        invariant best.Some? ==> best.value < i && Size(l[best.value]) > n
        invariant Scan(l, n, i, best) == Choose(l, n)
      {
        var size := l[i].end - l[i].start;
        if size == n {
          return Exact(i);
        }
        if size > n && (best.None? || size < l[best.value].end - l[best.value].start) {
          best := Some(i);
        }
        i := i + 1;
      }
      if best.Some? {
        return Split(best.value);
      }
      return Fresh;
    }

    /**
     * `frame_scope_free_regs(s, n)`, with the test for inserting at the back
     * corrected to include a block that starts where the last range ends:
     * shrinks the top for the topmost block, else inserts the block in
     * front, at the back, or where a binary search finds its place.
     */
    method FreeRegs(s: nat, n: nat)
      requires Valid() && n >= 1 && 1 <= s && s + n - 1 <= top && InUse(State(), s, n)
      requires forall v :: v in vars ==> !(s <= vars[v] < s + n)
      modifies this
      ensures State() == Release(old(State()), s, n)
      ensures vars == old(vars) && Valid()
    {
      ghost var f := State();
      ReleaseKeepsVars(f, s, n, vars);
      if s + n - 1 == top {
        top := top - n;
        if |free| > 0 && free[|free| - 1].end - 1 == top {
          top := free[|free| - 1].start - 1;
          ListRemove(|free| - 1);
          assert free == f.free[..|f.free| - 1];
        }
        return;
      }
      var p := InsertionPoint(s);
      ListInsert(p, Range(s, s + n));
    }

    /**
     * The insertion point `frame_scope_free_regs` looks for: in front, at
     * the back (corrected to include a block starting where the last range
     * ends), or where a binary search over the list finds it.
     */
    method InsertionPoint(s: nat) returns (p: nat)
      requires Consistent(State()) && 1 <= s && !Available(State(), s)
      ensures p == Position(free, s)
    {
      ghost var q := Position(free, s);
      if |free| == 0 || s < free[0].start {
        return 0;
      }
      HoldsAt(free, 0, free[0].start);
      assert Available(State(), free[0].start);
      var last := |free| - 1;
      if s >= free[last].end {
        assert forall k :: 0 <= k < last ==> free[k].end < free[last].start;
        return |free|;
      }
      HoldsAt(free, last, s);
      var lo, hi := 0, |free|;
      while true
        invariant 0 <= lo <= q <= hi <= |free| && 1 <= q < |free|
        decreases hi - lo
      {
        var m := lo + (hi - lo) / 2;
        HoldsAt(free, m, free[m].start);
        assert Available(State(), free[m].start);
        if s < free[m].start {
          if m > 0 && s > free[m - 1].start {
            return m;
          }
          hi := m - 1;
        } else {
          if m + 1 < |free| && s < free[m + 1].start {
            return m + 1;
          }
          lo := m + 1;
        }
      }
    }

    /** `frame_scope_alloc_var`: one register for a new variable. */
    method AllocVar(name: string) returns (reg: nat)
      requires Valid() && name !in vars
      modifies this
      ensures (State(), reg) == Allocate(old(State()), 1)
      ensures vars == old(vars)[name := reg] && Valid()
    {
      AllocateTakes(State(), 1);
      reg := AllocRegs(1);
      vars := vars[name := reg];
    }

    /** `frame_scope_free_var`: forgets a variable and frees its register. */
    method FreeVar(name: string)
      requires Valid() && name in vars
      modifies this
      ensures State() == Release(old(State()), old(vars)[name], 1)
      ensures vars == old(vars) - {name} && Valid()
    {
      var reg := vars[name];
      vars := vars - {name};
      FreeRegs(reg, 1);
    }

    /** `frame_scope_find_var`: the variable's register, or 0 when there is no such variable. */
    method FindVar(name: string) returns (reg: nat)
      requires Valid()
      ensures reg == 0 <==> name !in vars
      ensures name in vars ==> reg == vars[name]
    {
      if name in vars {
        reg := vars[name];
      } else {
        reg := 0;
      }
    }
  }
}
