/**
 * The object-pointer vector helpers of `core/objvec.h`, on a region of an
 * array of slots: copy, move (the regions may overlap), fill with the
 * filler, fill with a given value. Each writes exactly its target region.
 */
module ObjVec {
  import opened Values

  /** `zis_object_vec_copy`: the `|src|` slots from `dst` become `src`. */
  method VecCopy(a: array<Value>, dst: nat, src: seq<Value>)
    requires dst + |src| <= a.Length
    modifies a
    ensures a[dst .. dst + |src|] == src
    ensures a[..dst] == old(a[..dst]) && a[dst + |src|..] == old(a[dst + |src|..])
  {
    var k := 0;
    while k < |src|
      invariant 0 <= k <= |src|
      invariant a[dst .. dst + k] == src[..k]
      invariant a[..dst] == old(a[..dst]) && a[dst + k..] == old(a[dst + k..])
    {
      a[dst + k] := src[k];
      k := k + 1;
    }
  }

  /**
   * `zis_object_vec_move` within one array: the `n` slots from `dst` get
   * what the `n` slots from `src` held before, even when the two regions
   * overlap.
   */
  method VecMove(a: array<Value>, dst: nat, src: nat, n: nat)
    requires dst + n <= a.Length && src + n <= a.Length
    modifies a
    ensures a[dst .. dst + n] == old(a[src .. src + n])
    ensures a[..dst] == old(a[..dst]) && a[dst + n..] == old(a[dst + n..])
  {
    if dst <= src {
      MoveDown(a, dst, src, n);
    } else {
      MoveUp(a, dst, src, n);
    }
  }

  /** A move to lower indices, slot by slot from the front. */
  method MoveDown(a: array<Value>, dst: nat, src: nat, n: nat)
    requires dst <= src && src + n <= a.Length
    modifies a
    ensures forall i :: 0 <= i < a.Length ==> a[i] == if dst <= i < dst + n then old(a[i - dst + src]) else old(a[i])
  {
    ghost var s := a[..];
    var k := 0;
    while k < n
      invariant 0 <= k <= n
      invariant forall i {:trigger a[i]} :: 0 <= i < a.Length ==> a[i] == if dst <= i < dst + k then s[i - dst + src] else s[i]
    {
      a[dst + k] := a[src + k];
      k := k + 1;
    }
  }

  /** A move to higher indices, slot by slot from the back. */
  method MoveUp(a: array<Value>, dst: nat, src: nat, n: nat)
    requires src < dst && dst + n <= a.Length
    modifies a
    ensures forall i :: 0 <= i < a.Length ==> a[i] == if dst <= i < dst + n then old(a[i - dst + src]) else old(a[i])
  {
    var k := n;
    while k > 0
      invariant 0 <= k <= n
      invariant forall i :: 0 <= i < a.Length ==> a[i] == if dst + k <= i < dst + n then old(a[i - dst + src]) else old(a[i])
    {
      k := k - 1;
      a[dst + k] := a[src + k];
    }
  }

  /** `zis_object_vec_fill`: the `n` slots from `dst` become `v`. */
  method VecFill(a: array<Value>, dst: nat, v: Value, n: nat)
    requires dst + n <= a.Length
    modifies a
    ensures a[dst .. dst + n] == seq(n, _ => v)
    ensures a[..dst] == old(a[..dst]) && a[dst + n..] == old(a[dst + n..])
  {
    var k := 0;
    while k < n
      invariant 0 <= k <= n
      invariant a[dst .. dst + k] == seq(k, _ => v)
      invariant a[..dst] == old(a[..dst]) && a[dst + k..] == old(a[dst + k..])
    {
      a[dst + k] := v;
      k := k + 1;
    }
  }

  /** `zis_object_vec_zero`: the `n` slots from `dst` become the filler. */
  method VecZero(a: array<Value>, dst: nat, n: nat)
    requires dst + n <= a.Length
    modifies a
    ensures a[dst .. dst + n] == seq(n, _ => Filler)
    ensures a[..dst] == old(a[..dst]) && a[dst + n..] == old(a[dst + n..])
  {
    VecFill(a, dst, Filler, n);
  }
}
