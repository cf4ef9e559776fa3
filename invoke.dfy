/**
 * Function invocation in `core/invoke.c`: the argument-count check made
 * when a frame is entered, the wrong-count error message, and how the
 * arguments are laid out in the new frame's registers after REG-0 (required
 * arguments, then optional arguments padded with nil, or a tuple of the
 * extra arguments for a variadic function).
 */
module Invoke {
  import opened Wrappers
  import opened FuncObj
  import opened Stack
  import opened Values
  import opened ObjVec
  import Numerals

  /** Whether a function with meta `m` takes `argc` arguments. */
  predicate ArgcAccepted(m: FuncMeta, argc: nat) {
    argc == m.na || (argc > m.na && (m.no == Variadic || argc <= m.na + m.no))
  }

  /** The count check of `invocation_prepare` as the source writes it. */
  predicate ArgcRejected(m: FuncMeta, argc: nat) {
    argc != m.na && (argc < m.na || (m.no != Variadic && argc > m.na + m.no))
  }

  /**
   * The accepted counts are the required count, at least that many for a
   * variadic function, and up to `no` more otherwise.
   */
  lemma ArgcAcceptedSpec(m: FuncMeta, argc: nat)
    ensures ArgcAccepted(m, argc) <==> !ArgcRejected(m, argc)
    ensures m.no == Variadic ==> (ArgcAccepted(m, argc) <==> argc >= m.na)
    ensures m.no != Variadic ==> (ArgcAccepted(m, argc) <==> m.na <= argc <= m.na + m.no)
  {
  }

  /** What is called: a `Function` object with its meta and native pointer, or anything else. */
  datatype Callable = FunctionObj(meta: FuncMeta, native: Option<nat>) | NotFunction

  /** The outcome of `invocation_prepare`: the function, or the exception stored in REG-0. */
  datatype Prepared = Ready(meta: FuncMeta) | TypeError | ArgcError(message: string)

  /** `%zu`. */
  function SizeText(n: nat): string {
    Numerals.Numeral(n, 10, false)
  }

  /**
   * The count `format_error_argc` reports and its qualifier: "at least" the
   * required count when the function is variadic or too few were given,
   * "at most" the required plus optional count when too many were given,
   * the exact count when the function has no optional arguments.
   *
   * The qualifier is empty exactly for a function without optional
   * arguments, and the count is one of the bounds of the accepted range. For
   * every rejected count the report is violated by the given count (the
   * source asserts that they differ): the given count is below an "at
   * least", above an "at most", or different from an exact count.
   */
  function ExpectedArgc(m: FuncMeta, argc: nat): (e: (string, nat))
    ensures e.0 == "" <==> m.no == 0
    ensures e.0 == "" || e.0 == "at least " || e.0 == "at most "
    ensures e.0 == "at most " ==> m.no != Variadic && e.1 == m.na + m.no
    ensures e.0 != "at most " ==> e.1 == m.na
    ensures ArgcRejected(m, argc) ==>
      argc != e.1 && (e.0 == "at least " ==> argc < e.1) && (e.0 == "at most " ==> argc > e.1)
  {
    if m.no == 0 then ("", m.na)
    else if m.no == Variadic || argc < m.na then ("at least ", m.na)
    else ("at most ", m.na + m.no)
  }

  /** The message of the type error `format_error_argc` raises. */
  function ArgcMessage(m: FuncMeta, argc: nat): string {
    var (prefix, expected) := ExpectedArgc(m, argc);
    "wrong number of arguments (given " + SizeText(argc) + ", expected " + prefix + SizeText(expected) + ")"
  }

  /**
   * `invocation_prepare`: a non-function yields the "not callable" type
   * error and a wrong count the argc type error, both without a new frame;
   * otherwise a frame of `nr` registers is entered.
   */
  method Prepare(cs: Callstack, callable: Callable, argc: nat, returnIp: nat) returns (r: Prepared, ok: bool)
    requires cs.Valid()
    requires callable.FunctionObj? ==> RegistersCoverParams(callable.meta)
    modifies cs, cs.slots
    ensures cs.Valid()
    ensures callable.NotFunction? ==> r == TypeError && ok
    ensures callable.FunctionObj? && ArgcRejected(callable.meta, argc) ==>
              r == ArgcError(ArgcMessage(callable.meta, argc)) && ok
    ensures !r.Ready? ==> cs.top == old(cs.top) && cs.frame == old(cs.frame) && cs.infos == old(cs.infos)
    ensures r.Ready? ==> callable.FunctionObj? && r.meta == callable.meta && ArgcAccepted(r.meta, argc)
    ensures r.Ready? ==> ok == !Overflows(cs.slots.Length, old(cs.top), r.meta.nr)
    ensures r.Ready? && ok ==> cs.frame == old(cs.top) + 1 && cs.top == old(cs.top) + r.meta.nr
    ensures r.Ready? && ok ==> cs.infos == [FrameInfo(old(cs.top) + r.meta.nr, old(cs.frame), returnIp)] + old(cs.infos)
  {
    if callable.NotFunction? {
      return TypeError, true;
    }
    var m := callable.meta;
    if argc != m.na {
      if argc < m.na || (m.no != Variadic && argc > m.na + m.no) {
        return ArgcError(ArgcMessage(m, argc)), true;
      }
    }
    ok := cs.Enter(m.nr, returnIp);
    r := Ready(m);
  }

  /** `n` nils. */
  function Nils(n: nat): (s: seq<Value>)
    ensures |s| == n && forall i :: 0 <= i < n ==> s[i] == Nil
  {
    seq(n, _ => Nil)
  }

  /**
   * The parameter registers after a call with `args`: the arguments, then
   * nil for every optional argument not given; for a variadic function the
   * required arguments and a tuple of the rest (the empty tuple when there
   * are none).
   */
  function ArgsLayout(m: FuncMeta, args: seq<Value>): seq<Value>
    requires ArgcAccepted(m, |args|)
  {
    if m.no == Variadic then args[..m.na] + [Tuple(args[m.na..])]
    else args + Nils(m.na + m.no - |args|)
  }

  /**
   * The layout fills exactly the parameter slots: the `i`-th required or
   * optional parameter is the `i`-th argument when given and nil otherwise,
   * and a variadic function's rest slot holds the extra arguments in order.
   */
  lemma ArgsLayoutSpec(m: FuncMeta, args: seq<Value>)
    requires ArgcAccepted(m, |args|)
    ensures |ArgsLayout(m, args)| == ParamSlots(m)
    ensures forall i :: 0 <= i < m.na ==> ArgsLayout(m, args)[i] == args[i]
    ensures m.no != Variadic ==>
              forall i :: m.na <= i < m.na + m.no ==> ArgsLayout(m, args)[i] == if i < |args| then args[i] else Nil
    ensures m.no == Variadic ==> ArgsLayout(m, args)[m.na] == Tuple(args[m.na..])
  {
  }

  lemma ArgsLayoutLength(m: FuncMeta, args: seq<Value>)
    requires ArgcAccepted(m, |args|)
    ensures |ArgsLayout(m, args)| == ParamSlots(m)
  {
  }

  /**
   * `invocation_pass_args_vec`: writes the parameter registers of the
   * current frame (from FP + 1) as `ArgsLayout` says and nothing else.
   */
  method PassArgsVec(cs: Callstack, m: FuncMeta, argv: seq<Value>)
    requires cs.Valid() && ArgcAccepted(m, |argv|)
    requires cs.frame + ParamSlots(m) <= cs.top
    modifies cs.slots
    ensures cs.slots[cs.frame + 1 .. cs.frame + 1 + ParamSlots(m)] == ArgsLayout(m, argv)
    ensures cs.slots[..cs.frame + 1] == old(cs.slots[..cs.frame + 1])
    ensures cs.slots[cs.frame + 1 + ParamSlots(m)..] == old(cs.slots[cs.frame + 1 + ParamSlots(m)..])
  {
    ArgsLayoutLength(m, argv);
    WriteArgs(cs.slots, cs.frame + 1, m, argv);
  }

  /** The body of `invocation_pass_args_vec`, on the register array and the first parameter register. */
  method WriteArgs(a: array<Value>, argList: nat, m: FuncMeta, argv: seq<Value>)
    requires ArgcAccepted(m, |argv|) && argList + ParamSlots(m) <= a.Length
    modifies a
    ensures a[argList .. argList + ParamSlots(m)] == ArgsLayout(m, argv)
    ensures a[..argList] == old(a[..argList])
    ensures a[argList + ParamSlots(m)..] == old(a[argList + ParamSlots(m)..])
  {
    if |argv| == m.na {
      WriteExactArgs(a, argList, m, argv);
    } else if m.no != Variadic {
      WriteOptionalArgs(a, argList, m, argv);
    } else {
      WriteRestArgs(a, argList, m, argv);
    }
  }

  /** All required arguments and no more: the optional slots get nil, the rest slot the empty tuple. */
  method WriteExactArgs(a: array<Value>, argList: nat, m: FuncMeta, argv: seq<Value>)
    requires |argv| == m.na && argList + ParamSlots(m) <= a.Length
    modifies a
    ensures a[argList .. argList + ParamSlots(m)] == ArgsLayout(m, argv)
    ensures a[..argList] == old(a[..argList])
    ensures a[argList + ParamSlots(m)..] == old(a[argList + ParamSlots(m)..])
  {
    var argc := |argv|;
    ghost var s0 := a[..];
    VecCopy(a, argList, argv);
    ghost var s1 := a[..];
    if m.no != 0 {
      if m.no != Variadic {
        VecFill(a, argList + argc, Nil, m.no);
        Compose(s0, s1, a[..], argList, argv, Nils(m.no));
      } else {
        Store(a, argList + argc, Tuple([]));
        assert argv[..m.na] == argv && argv[m.na..] == [];
        Compose(s0, s1, a[..], argList, argv, [Tuple([])]);
      }
    } else {
      assert ArgsLayout(m, argv) == argv;
    }
  }

  /** Some optional arguments given: the ones not given are nil. */
  method WriteOptionalArgs(a: array<Value>, argList: nat, m: FuncMeta, argv: seq<Value>)
    requires m.na < |argv| <= m.na + m.no && m.no != Variadic && argList + ParamSlots(m) <= a.Length
    modifies a
    ensures a[argList .. argList + ParamSlots(m)] == ArgsLayout(m, argv)
    ensures a[..argList] == old(a[..argList])
    ensures a[argList + ParamSlots(m)..] == old(a[argList + ParamSlots(m)..])
  {
    var argc := |argv|;
    ghost var s0 := a[..];
    VecCopy(a, argList, argv);
    ghost var s1 := a[..];
    var fillN := m.na + m.no - argc;
    VecFill(a, argList + argc, Nil, fillN);
    Compose(s0, s1, a[..], argList, argv, Nils(fillN));
  }

  /** Extra arguments to a variadic function: they become the rest tuple. */
  method WriteRestArgs(a: array<Value>, argList: nat, m: FuncMeta, argv: seq<Value>)
    requires m.na < |argv| && m.no == Variadic && argList + ParamSlots(m) <= a.Length
    modifies a
    ensures a[argList .. argList + ParamSlots(m)] == ArgsLayout(m, argv)
    ensures a[..argList] == old(a[..argList])
    ensures a[argList + ParamSlots(m)..] == old(a[argList + ParamSlots(m)..])
  {
    ghost var s0 := a[..];
    VecCopy(a, argList, argv[..m.na]);
    ghost var s1 := a[..];
    Store(a, argList + m.na, Tuple(argv[m.na..]));
    Compose(s0, s1, a[..], argList, argv[..m.na], [Tuple(argv[m.na..])]);
  }

  /**
   * Writing `head` at `dst` and then `tail` right after it leaves `head +
   * tail` there and the rest as it was.
   */
  lemma Compose(s0: seq<Value>, s1: seq<Value>, s2: seq<Value>, dst: nat, head: seq<Value>, tail: seq<Value>)
    requires |s0| == |s1| == |s2| && dst + |head| + |tail| <= |s0|
    requires s1[dst .. dst + |head|] == head
    requires s1[..dst] == s0[..dst] && s1[dst + |head|..] == s0[dst + |head|..]
    requires s2[dst + |head| .. dst + |head| + |tail|] == tail
    requires s2[..dst + |head|] == s1[..dst + |head|] && s2[dst + |head| + |tail|..] == s1[dst + |head| + |tail|..]
    ensures s2[dst .. dst + |head| + |tail|] == head + tail
    ensures s2[..dst] == s0[..dst]
    ensures s2[dst + |head| + |tail|..] == s0[dst + |head| + |tail|..]
  {
    var n := dst + |head|;
    assert s2[dst .. n] == s1[..n][dst..];
    assert s2[dst .. n + |tail|] == s2[dst .. n] + s2[n .. n + |tail|];
    assert s2[..dst] == s1[..n][..dst];
    assert s2[n + |tail|..] == s0[n..][|tail|..];
  }

  /** One register written. */
  method Store(a: array<Value>, j: nat, v: Value)
    requires j < a.Length
    modifies a
    ensures a[j .. j + 1] == [v]
    ensures a[..j] == old(a[..j]) && a[j + 1..] == old(a[j + 1..])
  {
    a[j] := v;
  }

  /** The arguments the register indices pick out of the previous frame. */
  function Gather(a: seq<Value>, base: nat, regs: seq<nat>): (s: seq<Value>)
    requires forall i :: 0 <= i < |regs| ==> base + regs[i] < |a|
    ensures |s| == |regs| && forall i :: 0 <= i < |regs| ==> s[i] == a[base + regs[i]]
  {
    seq(|regs|, i requires 0 <= i < |regs| => a[base + regs[i]])
  }

  /**
   * `invocation_pass_args_dis`: as `PassArgsVec`, with the arguments read
   * from the previous frame's registers whose indices `regs` lists.
   */
  method PassArgsDis(cs: Callstack, m: FuncMeta, regs: seq<nat>)
    requires cs.Valid() && cs.infos != [] && ArgcAccepted(m, |regs|)
    requires cs.frame + ParamSlots(m) <= cs.top
    requires forall i :: 0 <= i < |regs| ==> cs.infos[0].prevFrame + regs[i] < cs.frame
    modifies cs.slots
    ensures cs.slots[cs.frame + 1 .. cs.frame + 1 + ParamSlots(m)] ==
              ArgsLayout(m, Gather(old(cs.slots[..]), cs.infos[0].prevFrame, regs))
    ensures cs.slots[..cs.frame + 1] == old(cs.slots[..cs.frame + 1])
    ensures cs.slots[cs.frame + 1 + ParamSlots(m)..] == old(cs.slots[cs.frame + 1 + ParamSlots(m)..])
  {
    ArgsLayoutLength(m, Gather(cs.slots[..], cs.infos[0].prevFrame, regs));
    WriteArgsDis(cs.slots, cs.frame + 1, cs.infos[0].prevFrame, m, regs);
  }

  /** The body of `invocation_pass_args_dis`, on the register array, the first parameter register and the previous frame. */
  method WriteArgsDis(a: array<Value>, argList: nat, prevFrame: nat, m: FuncMeta, regs: seq<nat>)
    requires ArgcAccepted(m, |regs|) && argList + ParamSlots(m) <= a.Length
    requires forall i :: 0 <= i < |regs| ==> prevFrame + regs[i] < argList
    modifies a
    ensures a[argList .. argList + ParamSlots(m)] == ArgsLayout(m, Gather(old(a[..]), prevFrame, regs))
    ensures a[..argList] == old(a[..argList])
    ensures a[argList + ParamSlots(m)..] == old(a[argList + ParamSlots(m)..])
  {
    if |regs| == m.na {
      WriteExactArgsDis(a, argList, prevFrame, m, regs);
    } else if m.no != Variadic {
      WriteOptionalArgsDis(a, argList, prevFrame, m, regs);
    } else {
      WriteRestArgsDis(a, argList, prevFrame, m, regs);
    }
  }

  /** As `WriteExactArgs`, reading the arguments from the previous frame. */
  method WriteExactArgsDis(a: array<Value>, argList: nat, prevFrame: nat, m: FuncMeta, regs: seq<nat>)
    requires |regs| == m.na && argList + ParamSlots(m) <= a.Length
    requires forall i :: 0 <= i < |regs| ==> prevFrame + regs[i] < argList
    modifies a
    ensures a[argList .. argList + ParamSlots(m)] == ArgsLayout(m, Gather(old(a[..]), prevFrame, regs))
    ensures a[..argList] == old(a[..argList])
    ensures a[argList + ParamSlots(m)..] == old(a[argList + ParamSlots(m)..])
  {
    var argc := |regs|;
    ghost var s0 := a[..];
    ghost var args := Gather(s0, prevFrame, regs);
    DisCopy(a, argList, prevFrame, regs);
    ghost var s1 := a[..];
    if m.no != 0 {
      if m.no != Variadic {
        VecFill(a, argList + argc, Nil, m.no);
        Compose(s0, s1, a[..], argList, args, Nils(m.no));
      } else {
        Store(a, argList + argc, Tuple([]));
        assert args[..m.na] == args && args[m.na..] == [];
        Compose(s0, s1, a[..], argList, args, [Tuple([])]);
      }
    } else {
      assert ArgsLayout(m, args) == args;
    }
  }

  /** As `WriteOptionalArgs`, reading the arguments from the previous frame. */
  method WriteOptionalArgsDis(a: array<Value>, argList: nat, prevFrame: nat, m: FuncMeta, regs: seq<nat>)
    requires m.na < |regs| <= m.na + m.no && m.no != Variadic && argList + ParamSlots(m) <= a.Length
    requires forall i :: 0 <= i < |regs| ==> prevFrame + regs[i] < argList
    modifies a
    ensures a[argList .. argList + ParamSlots(m)] == ArgsLayout(m, Gather(old(a[..]), prevFrame, regs))
    ensures a[..argList] == old(a[..argList])
    ensures a[argList + ParamSlots(m)..] == old(a[argList + ParamSlots(m)..])
  {
    var argc := |regs|;
    ghost var s0 := a[..];
    DisCopy(a, argList, prevFrame, regs);
    ghost var s1 := a[..];
    var fillN := m.na + m.no - argc;
    VecFill(a, argList + argc, Nil, fillN);
    Compose(s0, s1, a[..], argList, Gather(s0, prevFrame, regs), Nils(fillN));
  }

  /** As `WriteRestArgs`; the extra arguments are read into the new tuple. */
  method WriteRestArgsDis(a: array<Value>, argList: nat, prevFrame: nat, m: FuncMeta, regs: seq<nat>)
    requires m.na < |regs| && m.no == Variadic && argList + ParamSlots(m) <= a.Length
    requires forall i :: 0 <= i < |regs| ==> prevFrame + regs[i] < argList
    modifies a
    ensures a[argList .. argList + ParamSlots(m)] == ArgsLayout(m, Gather(old(a[..]), prevFrame, regs))
    ensures a[..argList] == old(a[..argList])
    ensures a[argList + ParamSlots(m)..] == old(a[argList + ParamSlots(m)..])
  {
    ghost var s0 := a[..];
    ghost var args := Gather(s0, prevFrame, regs);
    DisCopy(a, argList, prevFrame, regs[..m.na]);
    assert args[..m.na] == Gather(s0, prevFrame, regs[..m.na]);
    ghost var s1 := a[..];
    var rest := DisCollect(a, prevFrame, regs[m.na..]);
    GatherBelow(s0, s1, prevFrame, regs[m.na..], argList);
    assert rest == args[m.na..];
    Store(a, argList + m.na, Tuple(rest));
    Compose(s0, s1, a[..], argList, args[..m.na], [Tuple(rest)]);
  }

  /** Registers below `bound` read the same from two arrays that agree below it. */
  lemma GatherBelow(s0: seq<Value>, s1: seq<Value>, base: nat, regs: seq<nat>, bound: nat)
    requires bound <= |s0| && bound <= |s1| && s0[..bound] == s1[..bound]
    requires forall i :: 0 <= i < |regs| ==> base + regs[i] < bound
    ensures Gather(s0, base, regs) == Gather(s1, base, regs)
  {
    forall i | 0 <= i < |regs| ensures s0[base + regs[i]] == s1[base + regs[i]] {
      assert s0[base + regs[i]] == s0[..bound][base + regs[i]];
    }
  }

  /** `_invocation_pass_args_dis_copy` into the new frame. */
  method DisCopy(a: array<Value>, dst: nat, base: nat, regs: seq<nat>)
    requires dst + |regs| <= a.Length
    requires forall i :: 0 <= i < |regs| ==> base + regs[i] < dst
    modifies a
    ensures a[dst .. dst + |regs|] == Gather(old(a[..]), base, regs)
    ensures a[..dst] == old(a[..dst]) && a[dst + |regs|..] == old(a[dst + |regs|..])
  {
    ghost var g := Gather(a[..], base, regs);
    var k := 0;
    while k < |regs|
      invariant 0 <= k <= |regs|
      invariant a[dst .. dst + k] == g[..k]
      invariant a[..dst] == old(a[..dst]) && a[dst + k..] == old(a[dst + k..])
    {
      assert a[base + regs[k]] == a[..dst][base + regs[k]];
      a[dst + k] := a[base + regs[k]];
      k := k + 1;
    }
  }

  /** `_invocation_pass_args_dis_copy` into the new rest tuple. */
  method DisCollect(a: array<Value>, base: nat, regs: seq<nat>) returns (items: seq<Value>)
    requires forall i :: 0 <= i < |regs| ==> base + regs[i] < a.Length
    ensures items == Gather(a[..], base, regs)
  {
    items := [];
    var k := 0;
    while k < |regs|
      invariant 0 <= k <= |regs|
      invariant |items| == k && forall i :: 0 <= i < k ==> items[i] == a[base + regs[i]]
    {
      items := items + [a[base + regs[k]]];
      k := k + 1;
    }
  }

  /** What `zis_invoke_func` runs. */
  datatype Dispatch = CallNative(fn: nat) | ExecBytecode

  /**
   * `zis_invoke_func`: a function with a native pointer runs it; any other
   * runs its bytecode (which the source does not implement yet and panics).
   */
  function InvokeFunc(native: Option<nat>): (d: Dispatch)
    ensures d.CallNative? <==> native.Some?
    ensures d.CallNative? ==> d.fn == native.value
  {
    if native.Some? then CallNative(native.value) else ExecBytecode
  }
}
