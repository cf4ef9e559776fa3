/**
 * The runtime call stack of `core/stack.c`: a fixed array of slots
 * (registers) holding the frames one after another, the stack top (SP) and
 * the current frame base (FP) as slot indices, and the linked list of frame
 * infos (newest first) with its pool of free nodes.
 */
module Stack {
  import opened Words
  import opened Values

  /**
   * `struct zis_callstack_frame_info`: the frame's top without temporaries,
   * the previous frame's base, and the return address.
   */
  datatype FrameInfo = FrameInfo(frameTop: nat, prevFrame: nat, returnIp: nat)

  /** `ZIS_CALLSTACK_FI_POOL_SIZE`. */
  const PoolSize: nat := 20

  /** Pointers in `struct zis_callstack` before `_data`. */
  const HeaderWords: nat := 7

  function PtrBytes(w: Width): nat {
    w / 8
  }

  /**
   * The byte size `zis_callstack_create` allocates for a requested size: 0
   * means the default of 1020 pointers, and anything below the header plus
   * two slots is raised to that minimum.
   */
  function CallstackSize(w: Width, requested: nat): (size: nat)
    ensures size >= PtrBytes(w) * (HeaderWords + 2)
    ensures requested >= PtrBytes(w) * (HeaderWords + 2) ==> size == requested
  {
    if requested == 0 then PtrBytes(w) * 1020
    else if requested < PtrBytes(w) * (HeaderWords + 2) then PtrBytes(w) * (HeaderWords + 2)
    else requested
  }

  /** The number of slots behind the header. */
  function SlotCount(w: Width, requested: nat): (n: nat)
    ensures n >= 2
  {
    (CallstackSize(w, requested) - PtrBytes(w) * HeaderWords) / PtrBytes(w)
  }

  /** The default stack has 1013 slots on every target. */
  lemma DefaultSlotCount(w: Width)
    ensures SlotCount(w, 0) == 1013
  {
    assert CallstackSize(w, 0) - PtrBytes(w) * HeaderWords == PtrBytes(w) * 1013;
  }

  /**
   * The guard of `zis_callstack_enter` and `zis_callstack_frame_alloc_temp`
   * as written: overflow when fewer than `n` slots lie from SP to the end.
   */
  predicate OverflowsAsWritten(slotCount: nat, top: nat, n: nat) {
    slotCount - top < n
  }

  /** The intended guard: overflow when fewer than `n` slots lie above SP. */
  predicate Overflows(slotCount: nat, top: nat, n: nat) {
    slotCount - 1 - top < n
  }

  /** With the intended guard, the `n` new slots above SP all lie inside the stack. */
  lemma NoOverflowInBounds(slotCount: nat, top: nat, n: nat)
    requires top < slotCount
    ensures !Overflows(slotCount, top, n) <==> top + n < slotCount
  {
  }

  /**
   * The guard as written lets a request for exactly the slots from SP to the
   * end through: with 10 slots and SP at 0, `enter(10)` does not panic, yet
   * its new top is slot 10, one past the last slot, which is then cleared.
   */
  lemma OverflowsAsWrittenMissesLastSlot()
    ensures !OverflowsAsWritten(10, 0, 10) && Overflows(10, 0, 10)
    ensures exists n: nat :: !OverflowsAsWritten(10, 0, n) && !(0 + n < 10)
  {
    assert !OverflowsAsWritten(10, 0, 10) && !(0 + 10 < 10);
  }

  /** The two guards differ only when the request exactly reaches the end. */
  lemma OverflowGuardsDiffer(slotCount: nat, top: nat, n: nat)
    requires top < slotCount
    ensures OverflowsAsWritten(slotCount, top, n) != Overflows(slotCount, top, n) <==> top + n == slotCount
  {
  }

  /**
   * The frame-info list from the current frame outwards is consistent with
   * the stack: each frame base is at most one above the top below it (a
   * frame of size 0 is possible), its recorded top lies between its base and
   * the stack top, and the list ends at the bottom frame at slot 0.
   */
  predicate Chain(infos: seq<FrameInfo>, frame: nat, top: nat)
    decreases |infos|
  {
    if infos == [] then frame == 0
    else
      1 <= frame <= top + 1 && frame - 1 <= infos[0].frameTop <= top &&
      Chain(infos[1..], infos[0].prevFrame, frame - 1)
  }

  /** A frame as `zis_callstack_foreach_frame` shows it to its callback. */
  datatype FrameView = FrameView(index: nat, info: FrameInfo, base: nat, top: nat)

  /** The frames from the newest to the oldest, numbered from `index`. */
  function Frames(infos: seq<FrameInfo>, frame: nat, top: nat, index: nat): (fs: seq<FrameView>)
    requires Chain(infos, frame, top)
    ensures |fs| == |infos|
    decreases |infos|
  {
    if infos == [] then []
    else [FrameView(index, infos[0], frame, top)] + Frames(infos[1..], infos[0].prevFrame, frame - 1, index + 1)
  }

  /**
   * The frames are numbered consecutively from `index`, the first is the
   * current one, and each older frame ends one slot below the base of the
   * newer one and starts at the base the newer one recorded.
   */
  lemma {:induction false} FramesShape(infos: seq<FrameInfo>, frame: nat, top: nat, index: nat)
    requires Chain(infos, frame, top)
    ensures var fs := Frames(infos, frame, top, index);
      (forall k :: 0 <= k < |fs| ==> fs[k].index == index + k && fs[k].info == infos[k] && fs[k].base <= fs[k].top + 1) &&
      (|fs| > 0 ==> fs[0].base == frame && fs[0].top == top) &&
      (forall k :: 0 <= k < |fs| - 1 ==> fs[k + 1].top == fs[k].base - 1 && fs[k + 1].base == fs[k].info.prevFrame)
    decreases |infos|
  {
    if infos != [] {
      FramesShape(infos[1..], infos[0].prevFrame, frame - 1, index + 1);
    }
  }

  /** The first non-zero callback result over the frames, or 0. */
  function FirstNonZero(fs: seq<FrameView>, fn: FrameView -> int): (r: int)
    ensures r != 0 ==> exists k :: 0 <= k < |fs| && fn(fs[k]) == r && forall j :: 0 <= j < k ==> fn(fs[j]) == 0
    ensures r == 0 ==> forall k :: 0 <= k < |fs| ==> fn(fs[k]) == 0
  {
    if fs == [] then 0
    else if fn(fs[0]) != 0 then fn(fs[0])
    else
      var r := FirstNonZero(fs[1..], fn);
      assert forall k :: 1 <= k < |fs| ==> fs[k] == fs[1..][k - 1];
      r
  }

  /** `struct zis_callstack`. */
  class Callstack {
    const slots: array<Value>
    var top: nat
    var frame: nat
    var infos: seq<FrameInfo>
    var pool: seq<FrameInfo>
    var freeCount: nat

    ghost predicate Valid()
      reads this
    {
      top < slots.Length && Chain(infos, frame, top) && freeCount == |pool| <= PoolSize
    }

    /**
     * `zis_callstack_create`: SP and FP at slot 0, which holds the small
     * int 0, empty frame-info lists. The other slots are not written.
     */
    constructor Create(w: Width, requested: nat)
      ensures Valid()
      ensures slots.Length == SlotCount(w, requested) && fresh(slots)
      ensures top == 0 && frame == 0 && slots[0] == Small(0)
      ensures infos == [] && pool == [] && freeCount == 0
    {
      var n := SlotCount(w, requested);
      var a := new Value[n](_ => Unwritten);
      a[0] := Small(0);
      slots := a;
      top, frame := 0, 0;
      infos, pool, freeCount := [], [], 0;
    }

    /** `zis_callstack_empty`. */
    predicate Empty()
      reads this
    {
      infos == []
    }

    /** `zis_callstack_frame_size`: the registers of the current frame. */
    function FrameSize(): (n: nat)
      requires Valid()
      reads this
      ensures frame + n == top + 1
    {
      ChainBounds(infos, frame, top);
      top + 1 - frame
    }

    /** `fi_list_push`: reuses a pooled node when there is one. */
    method FiPush(info: FrameInfo)
      requires freeCount == |pool| <= PoolSize
      modifies this
      ensures infos == [info] + old(infos)
      ensures pool == (if old(pool) == [] then [] else old(pool)[1..]) && freeCount == |pool|
      ensures top == old(top) && frame == old(frame)
    {
      if pool != [] {
        pool := pool[1..];
        freeCount := freeCount - 1;
      }
      infos := [info] + infos;
    }

    /** `fi_list_pop`: the dropped node goes to the pool unless it already holds `PoolSize` nodes. */
    method FiPop()
      requires infos != [] && freeCount == |pool| <= PoolSize
      modifies this
      ensures infos == old(infos)[1..]
      ensures pool == (if |old(pool)| < PoolSize then [old(infos)[0]] + old(pool) else old(pool))
      ensures freeCount == |pool| <= PoolSize
      ensures top == old(top) && frame == old(frame)
    {
      var fi := infos[0];
      infos := infos[1..];
      if freeCount < PoolSize {
        pool := [fi] + pool;
        freeCount := freeCount + 1;
      }
    }

    /**
     * `zis_callstack_enter`, with the intended overflow guard: panics (here
     * `ok` is false and nothing changes) when fewer than `n` slots lie above
     * SP; otherwise the new frame starts right above the old top, spans `n`
     * cleared slots, and its info records the old frame and the return ip.
     */
    method Enter(n: nat, returnIp: nat) returns (ok: bool)
      requires Valid()
      modifies this, slots
      ensures Valid()
      ensures ok == !Overflows(slots.Length, old(top), n)
      ensures !ok ==> top == old(top) && frame == old(frame) && infos == old(infos) && slots[..] == old(slots[..])
      ensures ok ==> top == old(top) + n && frame == old(top) + 1
      ensures ok ==> infos == [FrameInfo(old(top) + n, old(frame), returnIp)] + old(infos)
      ensures ok ==> forall i :: 0 <= i < slots.Length ==>
                       slots[i] == (if old(top) < i <= old(top) + n then Filler else old(slots[i]))
    {
      if slots.Length - 1 - top < n {
        return false;
      }
      var oldTop, oldFrame := top, frame;
      FiPush(FrameInfo(oldTop + n, oldFrame, returnIp));
      top, frame := oldTop + n, oldTop + 1;
      ClearRange(oldTop + 1, n);
      assert infos[1..] == old(infos);
      ok := true;
    }

    /** `callstack_clear_range`: clears `count` slots from `begin`. */
    method ClearRange(begin: nat, count: nat)
      requires begin + count <= slots.Length
      modifies slots
      ensures forall i :: 0 <= i < slots.Length ==>
                slots[i] == (if begin <= i < begin + count then Filler else old(slots[i]))
    {
      var k := 0;
      while k < count
        invariant 0 <= k <= count
        invariant forall i :: 0 <= i < slots.Length ==>
                    slots[i] == (if begin <= i < begin + k then Filler else old(slots[i]))
      {
        slots[begin + k] := Filler;
        k := k + 1;
      }
    }

    /**
     * `zis_callstack_leave`: drops the current frame; SP goes one below its
     * base and FP back to the recorded previous frame, so a leave undoes
     * the matching enter.
     */
    method Leave()
      requires Valid() && infos != []
      modifies this
      ensures Valid()
      ensures top == old(frame) - 1 && frame == old(infos)[0].prevFrame
      ensures infos == old(infos)[1..]
      ensures pool == (if |old(pool)| < PoolSize then [old(infos)[0]] + old(pool) else old(pool))
      ensures freeCount == |pool|
    {
      var oldFrame := frame;
      var fi := infos[0];
      FiPop();
      top, frame := oldFrame - 1, fi.prevFrame;
    }

    /**
     * `zis_callstack_frame_alloc_temp`, with the intended overflow guard:
     * SP rises by `n` and the `n` new slots, which start at the returned
     * index, are cleared.
     */
    method AllocTemp(n: nat) returns (ok: bool, begin: nat)
      requires Valid()
      modifies this, slots
      ensures Valid()
      ensures ok == !Overflows(slots.Length, old(top), n)
      ensures !ok ==> top == old(top) && slots[..] == old(slots[..])
      ensures ok ==> top == old(top) + n && begin == old(top) + 1
      ensures ok ==> forall i :: 0 <= i < slots.Length ==>
                       slots[i] == (if begin <= i < begin + n then Filler else old(slots[i]))
      ensures frame == old(frame) && infos == old(infos)
    {
      begin := top + 1;
      if slots.Length - 1 - top < n {
        return false, begin;
      }
      ChainRaiseTop(infos, frame, top, top + n);
      top := top + n;
      ClearRange(begin, n);
      ok := true;
    }

    /**
     * `zis_callstack_frame_free_temp`: panics (here `ok` is false and
     * nothing changes) when `n` exceeds the temporaries above the frame's
     * recorded top; otherwise SP drops by `n`.
     */
    method FreeTemp(n: nat) returns (ok: bool)
      requires Valid() && infos != []
      modifies this
      ensures Valid()
      ensures ok == (n <= old(top) - old(infos)[0].frameTop)
      ensures ok ==> top == old(top) - n
      ensures !ok ==> top == old(top)
      ensures frame == old(frame) && infos == old(infos)
    {
      if top - infos[0].frameTop < n {
        return false;
      }
      top := top - n;
      ok := true;
    }

    /**
     * `zis_callstack_foreach_frame`: calls `fn` on the frames from the
     * newest to the oldest and returns its first non-zero result, or 0.
     */
    method ForeachFrame(fn: FrameView -> int) returns (r: int)
      requires Valid()
      ensures r == FirstNonZero(Frames(infos, frame, top, 0), fn)
    {
      var k: nat := 0;
      var base, tp := frame, top;
      while k < |infos|
        invariant k <= |infos|
        invariant Chain(infos[k..], base, tp)
        invariant FirstNonZero(Frames(infos, frame, top, 0), fn) == FirstNonZero(Frames(infos[k..], base, tp, k), fn)
        decreases |infos| - k
      {
        var fi := infos[k];
        var view := FrameView(k, fi, base, tp);
        assert infos[k..][1..] == infos[k + 1..];
        if fn(view) != 0 {
          return fn(view);
        }
        tp := base - 1;
        base := fi.prevFrame;
        k := k + 1;
      }
      r := 0;
    }
  }

  lemma {:induction false} ChainBounds(infos: seq<FrameInfo>, frame: nat, top: nat)
    requires Chain(infos, frame, top)
    ensures frame <= top + 1
  {
  }

  /** Raising the stack top keeps the frame chain consistent. */
  lemma ChainRaiseTop(infos: seq<FrameInfo>, frame: nat, top: nat, top': nat)
    requires Chain(infos, frame, top) && top <= top'
    ensures Chain(infos, frame, top')
  {
  }
}
