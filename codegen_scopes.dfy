/**
 * The scope stack of the code generator (core/codegen.c): frame, variable
 * and loop scopes stacked one on another, and one free list per kind that
 * keeps popped scopes for the next push of that kind.
 *
 * A scope object is named by its number here (the order in which the
 * scope objects were created), standing in for the address of the C
 * structure; `types` records the kind each created object was made with,
 * the `type` field of its common head.  A variable scope records the
 * frame scope it allocates in.  The stack and the free lists are
 * sequences whose last element is the head of the C linked list.
 */
module CodegenScopes {
  import opened Wrappers
  import Codegen

  /** `SCOPE_FRAME`, `SCOPE_VAR` and `SCOPE_LOOP`. */
  datatype Kind = FrameKind | VarKind | LoopKind

  /** A scope on the stack: a frame, a variable scope and the frame it belongs to, or a loop. */
  datatype Scope = OfFrame(id: nat) | OfVar(id: nat, frame: nat) | OfLoop(id: nat)

  function KindOf(sc: Scope): Kind {
    match sc
    case OfFrame(_) => FrameKind
    case OfVar(_, _) => VarKind
    case OfLoop(_) => LoopKind
  }

  /**
   * `struct scope_stack`: the stack of scopes, the three free lists, and
   * the kinds of all scope objects created so far.
   */
  datatype Scopes = Scopes(
    stack: seq<Scope>,
    freeFrames: seq<nat>,
    freeVars: seq<nat>,
    freeLoops: seq<nat>,
    types: seq<Kind>)

  /** `scope_stack_init`: nothing on the stack, nothing created. */
  const Init := Scopes([], [], [], [], [])

  /* ----- finding scopes from the top -------------------------------------- */

  /**
   * The position of the topmost frame or variable scope, which
   * `scope_stack_last_frame_or_var_scope` walks down to.
   */
  function LastFrameOrVarAt(st: seq<Scope>): (r: Option<nat>)
    ensures r.Some? ==> r.value < |st| && !st[r.value].OfLoop?
    ensures r.Some? ==> forall j :: r.value < j < |st| ==> st[j].OfLoop?
    ensures r.None? ==> forall j :: 0 <= j < |st| ==> st[j].OfLoop?
  {
    if |st| == 0 then None
    else if !st[|st| - 1].OfLoop? then Some(|st| - 1)
    else LastFrameOrVarAt(st[..|st| - 1])
  }

  /**
   * The frame scope that `scope_stack_last_frame_scope` resolves to: the
   * topmost frame scope, or the frame of a variable scope above it.
   */
  function FrameOf(st: seq<Scope>): Option<nat> {
    match LastFrameOrVarAt(st)
    case None => None
    case Some(k) => if st[k].OfFrame? then Some(st[k].id) else Some(st[k].frame)
  }

  /**
   * The position of the loop scope `scope_stack_last_loop_scope` finds: the
   * topmost loop scope when only variable scopes lie above it, none when a
   * frame scope comes first.
   */
  function LastLoopAt(st: seq<Scope>): (r: Option<nat>)
    ensures r.Some? ==> r.value < |st| && st[r.value].OfLoop?
    ensures r.Some? ==> forall j :: r.value < j < |st| ==> st[j].OfVar?
    ensures r.None? ==> forall j :: 0 <= j < |st| && st[j].OfLoop? ==>
      exists i :: j < i < |st| && st[i].OfFrame?
  {
    if |st| == 0 then None
    else if st[|st| - 1].OfLoop? then Some(|st| - 1)
    else if st[|st| - 1].OfFrame? then None
    else
      var r := LastLoopAt(st[..|st| - 1]);
      assert r.None? ==> forall j :: 0 <= j < |st| && st[j].OfLoop? ==>
        exists i :: j < i < |st| && st[i].OfFrame? by {
        if r.None? {
          forall j | 0 <= j < |st| && st[j].OfLoop?
            ensures exists i :: j < i < |st| && st[i].OfFrame?
          {
            assert st[..|st| - 1][j] == st[j];
            var i :| j < i < |st| - 1 && st[..|st| - 1][i].OfFrame?;
            assert st[i].OfFrame?;
          }
        }
      }
      r
  }

  /** The identity of the loop scope `scope_stack_last_loop_scope` returns. */
  function LoopOf(st: seq<Scope>): Option<nat> {
    match LastLoopAt(st)
    case None => None
    case Some(k) => Some(st[k].id)
  }

  /* ----- push and pop ----------------------------------------------------- */

  function FreeOf(s: Scopes, k: Kind): seq<nat> {
    match k
    case FrameKind => s.freeFrames
    case VarKind => s.freeVars
    case LoopKind => s.freeLoops
  }

  function WithFree(s: Scopes, k: Kind, l: seq<nat>): Scopes {
    match k
    case FrameKind => s.(freeFrames := l)
    case VarKind => s.(freeVars := l)
    case LoopKind => s.(freeLoops := l)
  }

  /**
   * The scope object a push of kind `k` uses: the head of the kind's free
   * list, taken off it, or a new object of that kind.
   */
  function Take(s: Scopes, k: Kind): (Scopes, nat) {
    var free := FreeOf(s, k);
    if |free| > 0 then (WithFree(s, k, free[..|free| - 1]), free[|free| - 1])
    else (s.(types := s.types + [k]), |s.types|)
  }

  /** The scope object `id` set up as the new top of stack `st`. */
  function Make(k: Kind, id: nat, st: seq<Scope>): Scope
    requires k == VarKind ==> FrameOf(st).Some?
  {
    match k
    case FrameKind => OfFrame(id)
    case VarKind => OfVar(id, FrameOf(st).value)
    case LoopKind => OfLoop(id)
  }

  /**
   * `scope_stack_push_*_scope`: the head of the kind's free list, or a new
   * scope object, becomes the top; a variable scope records the frame the
   * stack resolves to.  Returns the new state and the pushed scope.
   */
  function Push(s: Scopes, k: Kind): (Scopes, nat)
    requires k == VarKind ==> FrameOf(s.stack).Some?
  {
    var (t, id) := Take(s, k);
    (t.(stack := s.stack + [Make(k, id, s.stack)]), id)
  }

  /** `scope_stack_pop_*_scope`: the top, which is of kind `k`, goes to the head of that kind's free list. */
  function Pop(s: Scopes, k: Kind): Scopes
    requires |s.stack| > 0 && KindOf(s.stack[|s.stack| - 1]) == k
  {
    var id := s.stack[|s.stack| - 1].id;
    WithFree(s, k, FreeOf(s, k) + [id]).(stack := s.stack[..|s.stack| - 1])
  }

  /* ----- the invariant ---------------------------------------------------- */

  /** The numbers below `n`, once each. */
  function Upto(n: nat): multiset<nat> {
    if n == 0 then multiset{} else Upto(n - 1) + multiset{n - 1}
  }

  function StackIds(st: seq<Scope>): multiset<nat> {
    if |st| == 0 then multiset{} else StackIds(st[..|st| - 1]) + multiset{st[|st| - 1].id}
  }

  /** Every scope object in one place: on the stack or on a free list. */
  function Owned(s: Scopes): multiset<nat> {
    StackIds(s.stack) + FreeIds(s)
  }

  /** The scope objects on the free lists. */
  function FreeIds(s: Scopes): multiset<nat> {
    multiset(s.freeFrames) + multiset(s.freeVars) + multiset(s.freeLoops)
  }

  /** Every object on the list was created with kind `k`. */
  predicate Typed(l: seq<nat>, types: seq<Kind>, k: Kind) {
    forall i :: 0 <= i < |l| ==> l[i] < |types| && types[l[i]] == k
  }

  /** Every variable scope on the stack records the frame the stack below it resolves to. */
  predicate Linked(st: seq<Scope>) {
    forall k :: 0 <= k < |st| && st[k].OfVar? ==> FrameOf(st[..k]) == Some(st[k].frame)
  }

  /**
   * Every scope object created is either on the stack or on exactly one
   * free list, exactly once (so `scope_stack_fini` destroys each once and
   * none is lost); each sits where its kind says; and variable scopes are
   * linked to their frames.
   */
  predicate Sound(s: Scopes) {
    Owned(s) == Upto(|s.types|) && Placed(s) && Linked(s.stack)
  }

  /** Each scope object sits where its kind says. */
  predicate Placed(s: Scopes) {
    (forall i :: 0 <= i < |s.stack| ==>
       s.stack[i].id < |s.types| && s.types[s.stack[i].id] == KindOf(s.stack[i]))
    && Typed(s.freeFrames, s.types, FrameKind)
    && Typed(s.freeVars, s.types, VarKind)
    && Typed(s.freeLoops, s.types, LoopKind)
  }

  lemma StackIdsPush(st: seq<Scope>, sc: Scope)
    ensures StackIds(st + [sc]) == StackIds(st) + multiset{sc.id}
  {
    assert (st + [sc])[..|st|] == st;
  }

  lemma LinkedPush(st: seq<Scope>, sc: Scope)
    requires Linked(st)
    requires sc.OfVar? ==> FrameOf(st) == Some(sc.frame)
    ensures Linked(st + [sc])
  {
    var t := st + [sc];
    forall k | 0 <= k < |t| && t[k].OfVar?
      ensures FrameOf(t[..k]) == Some(t[k].frame)
    {
      if k < |st| {
        assert t[..k] == st[..k];
      } else {
        assert t[..k] == st;
      }
    }
  }

  lemma LinkedPrefix(st: seq<Scope>, n: nat)
    requires Linked(st) && n <= |st|
    ensures Linked(st[..n])
  {
    forall k | 0 <= k < n && st[..n][k].OfVar?
      ensures FrameOf(st[..n][..k]) == Some(st[..n][k].frame)
    {
      assert st[..n][..k] == st[..k];
    }
  }

  /** Replacing the kind's free list changes the free scopes by the difference. */
  lemma FreeIdsWith(s: Scopes, k: Kind, l: seq<nat>)
    ensures FreeIds(WithFree(s, k, l)) + multiset(FreeOf(s, k)) == FreeIds(s) + multiset(l)
  {
  }

  /** A push moves a scope off its free list, or creates one. */
  lemma PushOwned(s: Scopes, k: Kind)
    requires k == VarKind ==> FrameOf(s.stack).Some?
    requires Owned(s) == Upto(|s.types|)
    ensures Owned(Push(s, k).0) == Upto(|Push(s, k).0.types|)
  {
    var (t, id) := Push(s, k);
    var sc := t.stack[|s.stack|];
    assert t.stack == s.stack + [sc];
    StackIdsPush(s.stack, sc);
    if |FreeOf(s, k)| > 0 {
      ReuseOwned(s, k, t, id);
    } else {
      FreshOwned(s, k, t);
    }
  }

  /** A new scope object on the stack is owned once, as the last one created. */
  lemma FreshOwned(s: Scopes, k: Kind, t: Scopes)
    requires Owned(s) == Upto(|s.types|)
    requires t == s.(types := s.types + [k], stack := t.stack)
    requires StackIds(t.stack) == StackIds(s.stack) + multiset{|s.types|}
    ensures Owned(t) == Upto(|t.types|)
  {
    assert FreeIds(t) == FreeIds(s);
    assert Upto(|t.types|) == Upto(|s.types|) + multiset{|s.types|};
  }

  /** Taking the head of a free list onto the stack keeps the scope objects owned. */
  lemma ReuseOwned(s: Scopes, k: Kind, t: Scopes, id: nat)
    requires |FreeOf(s, k)| > 0 && id == FreeOf(s, k)[|FreeOf(s, k)| - 1]
    requires t.types == s.types && StackIds(t.stack) == StackIds(s.stack) + multiset{id}
    requires t == WithFree(s, k, FreeOf(s, k)[..|FreeOf(s, k)| - 1]).(stack := t.stack)
    ensures Owned(t) == Owned(s)
  {
    var free := FreeOf(s, k);
    var rest := free[..|free| - 1];
    assert free == rest + [id];
    assert multiset(free) == multiset(rest) + multiset{id};
    FreeIdsWith(s, k, rest);
    assert FreeIds(t) + multiset{id} == FreeIds(s);
  }

  /** A push puts every scope object where its kind says. */
  lemma PushPlaced(s: Scopes, k: Kind)
    requires k == VarKind ==> FrameOf(s.stack).Some?
    requires Placed(s)
    ensures Placed(Push(s, k).0)
  {
    var (t, id) := Push(s, k);
    var free := FreeOf(s, k);
    if |free| > 0 {
      assert free[|free| - 1] in free;
      assert Typed(free, s.types, k);
    }
  }

  /** A push keeps the invariant and puts a scope of kind `k` on top of the old stack. */
  lemma PushKeeps(s: Scopes, k: Kind)
    requires Sound(s) && (k == VarKind ==> FrameOf(s.stack).Some?)
    ensures Sound(Push(s, k).0)
    ensures Push(s, k).0.stack[..|s.stack|] == s.stack
    ensures |Push(s, k).0.stack| == |s.stack| + 1
    ensures KindOf(Push(s, k).0.stack[|s.stack|]) == k && Push(s, k).0.stack[|s.stack|].id == Push(s, k).1
  {
    var t := Push(s, k).0;
    var sc := t.stack[|s.stack|];
    assert t.stack == s.stack + [sc];
    PushOwned(s, k);
    PushPlaced(s, k);
    LinkedPush(s.stack, sc);
  }

  /** A pop keeps the invariant and leaves the stack below the old top. */
  lemma PopKeeps(s: Scopes, k: Kind)
    requires Sound(s) && |s.stack| > 0 && KindOf(s.stack[|s.stack| - 1]) == k
    ensures Sound(Pop(s, k)) && Pop(s, k).stack == s.stack[..|s.stack| - 1]
    ensures FreeOf(Pop(s, k), k) == FreeOf(s, k) + [s.stack[|s.stack| - 1].id]
  {
    var n := |s.stack| - 1;
    var id := s.stack[n].id;
    var free := FreeOf(s, k);
    var t := Pop(s, k);
    assert t == WithFree(s, k, free + [id]).(stack := s.stack[..n]);
    assert s.stack == s.stack[..n] + [s.stack[n]];
    StackIdsPush(s.stack[..n], s.stack[n]);
    PopOwned(s, k, t);
    PopPlaced(s, k);
    LinkedPrefix(s.stack, n);
  }

  /** A pop moves the top scope object onto a free list. */
  lemma PopOwned(s: Scopes, k: Kind, t: Scopes)
    requires |s.stack| > 0
    requires t == WithFree(s, k, FreeOf(s, k) + [s.stack[|s.stack| - 1].id]).(stack := s.stack[..|s.stack| - 1])
    requires StackIds(s.stack) == StackIds(t.stack) + multiset{s.stack[|s.stack| - 1].id}
    ensures Owned(t) == Owned(s)
  {
    var id := s.stack[|s.stack| - 1].id;
    var free := FreeOf(s, k);
    assert multiset(free + [id]) == multiset(free) + multiset{id};
    FreeIdsWith(s, k, free + [id]);
    assert FreeIds(t) == FreeIds(s) + multiset{id};
  }

  /** A pop puts the popped scope on the free list of its own kind. */
  lemma PopPlaced(s: Scopes, k: Kind)
    requires Placed(s) && |s.stack| > 0 && KindOf(s.stack[|s.stack| - 1]) == k
    ensures Placed(Pop(s, k))
  {
    var n := |s.stack| - 1;
    var id := s.stack[n].id;
    assert id < |s.types| && s.types[id] == k;
    assert Typed(FreeOf(s, k) + [id], s.types, k);
  }

  /**
   * LIFO: popping what was just pushed gives the old stack back, and when
   * the push reused a scope, the whole old state.
   */
  lemma PushThenPop(s: Scopes, k: Kind)
    requires k == VarKind ==> FrameOf(s.stack).Some?
    ensures Pop(Push(s, k).0, k).stack == s.stack
    ensures |FreeOf(s, k)| > 0 ==> Pop(Push(s, k).0, k) == s
  {
    var t := Push(s, k).0;
    assert t.stack[..|s.stack|] == s.stack;
    var free := FreeOf(s, k);
    if |free| > 0 {
      assert free[..|free| - 1] + [free[|free| - 1]] == free;
    }
  }

  /**
   * Popping the top and pushing the same kind again brings back the very
   * scope just popped (the head of its free list), and the same state.
   */
  lemma PopThenPush(s: Scopes, k: Kind)
    requires Sound(s) && |s.stack| > 0 && KindOf(s.stack[|s.stack| - 1]) == k
    ensures k == VarKind ==> FrameOf(Pop(s, k).stack).Some?
    ensures Push(Pop(s, k), k) == (s, s.stack[|s.stack| - 1].id)
  {
    var n := |s.stack| - 1;
    var t := Pop(s, k);
    assert s.stack[..n] + [s.stack[n]] == s.stack;
    assert FreeOf(t, k)[..|FreeOf(t, k)| - 1] == FreeOf(s, k);
    if k == VarKind {
      assert FrameOf(s.stack[..n]) == Some(s.stack[n].frame);
    }
  }

  /** Where a push leaves the frame and the loop the stack resolves to. */
  lemma PushResolves(s: Scopes, k: Kind)
    requires k == VarKind ==> FrameOf(s.stack).Some?
    ensures k == FrameKind ==> FrameOf(Push(s, k).0.stack) == Some(Push(s, k).1)
    ensures k == FrameKind ==> LoopOf(Push(s, k).0.stack) == None
    ensures k == VarKind ==> FrameOf(Push(s, k).0.stack) == FrameOf(s.stack)
    ensures k == VarKind ==> LoopOf(Push(s, k).0.stack) == LoopOf(s.stack)
    ensures k == LoopKind ==> FrameOf(Push(s, k).0.stack) == FrameOf(s.stack)
    ensures k == LoopKind ==> LoopOf(Push(s, k).0.stack) == Some(Push(s, k).1)
  {
    var t := Push(s, k).0;
    assert t.stack[..|t.stack| - 1] == s.stack;
  }

  /* ----- the scope stack -------------------------------------------------- */

  /** `struct scope_stack`, relinked in place by pushes and pops. */
  class ScopeStack {
    var stack: seq<Scope>
    var freeFrames: seq<nat>
    var freeVars: seq<nat>
    var freeLoops: seq<nat>
    var types: seq<Kind>

    function Contents(): Scopes
      reads this
    {
      Scopes(stack, freeFrames, freeVars, freeLoops, types)
    }

    predicate Valid()
      reads this
    {
      Sound(Contents())
    }

    /** `scope_stack_init`. */
    constructor()
      ensures Contents() == Init && Valid()
    {
      stack, freeFrames, freeVars, freeLoops, types := [], [], [], [], [];
    }

    /** `scope_stack_push_frame_scope`: returns the frame scope now on top. */
    method PushFrame() returns (id: nat)
      requires Valid()
      modifies this
      ensures (Contents(), id) == Push(old(Contents()), FrameKind) && Valid()
    {
      ghost var s := Contents();
      PushKeeps(s, FrameKind);
      if |freeFrames| > 0 {
        id := freeFrames[|freeFrames| - 1];
        freeFrames := freeFrames[..|freeFrames| - 1];
        assert Take(s, FrameKind) == (s.(freeFrames := freeFrames), id);
      } else {
        id := |types|;
        types := types + [FrameKind];
        assert Take(s, FrameKind) == (s.(types := types), id);
      }
      assert Make(FrameKind, id, s.stack) == OfFrame(id);
      stack := stack + [OfFrame(id)];
      assert Contents() == Push(s, FrameKind).0;
    }

    /**
     * `scope_stack_push_var_scope`: the new variable scope records the
     * frame the stack resolves to, which must exist.
     */
    method PushVar() returns (id: nat)
      requires Valid() && FrameOf(stack).Some?
      modifies this
      ensures (Contents(), id) == Push(old(Contents()), VarKind) && Valid()
    {
      ghost var s := Contents();
      PushKeeps(s, VarKind);
      var frame := LastFrame();
      if |freeVars| > 0 {
        id := freeVars[|freeVars| - 1];
        freeVars := freeVars[..|freeVars| - 1];
        assert Take(s, VarKind) == (s.(freeVars := freeVars), id);
      } else {
        id := |types|;
        types := types + [VarKind];
        assert Take(s, VarKind) == (s.(types := types), id);
      }
      assert Make(VarKind, id, s.stack) == OfVar(id, frame);
      stack := stack + [OfVar(id, frame)];
      assert Contents() == Push(s, VarKind).0;
    }

    /** `scope_stack_push_loop_scope`: returns the loop scope now on top. */
    method PushLoop() returns (id: nat)
      requires Valid()
      modifies this
      ensures (Contents(), id) == Push(old(Contents()), LoopKind) && Valid()
    {
      ghost var s := Contents();
      PushKeeps(s, LoopKind);
      if |freeLoops| > 0 {
        id := freeLoops[|freeLoops| - 1];
        freeLoops := freeLoops[..|freeLoops| - 1];
        assert Take(s, LoopKind) == (s.(freeLoops := freeLoops), id);
      } else {
        id := |types|;
        types := types + [LoopKind];
        assert Take(s, LoopKind) == (s.(types := types), id);
      }
      assert Make(LoopKind, id, s.stack) == OfLoop(id);
      stack := stack + [OfLoop(id)];
      assert Contents() == Push(s, LoopKind).0;
    }

    /** `scope_stack_pop_frame_scope`: the top must be a frame scope. */
    method PopFrame()
      requires Valid() && |stack| > 0 && stack[|stack| - 1].OfFrame?
      modifies this
      ensures Contents() == Pop(old(Contents()), FrameKind) && Valid()
    {
      PopKeeps(Contents(), FrameKind);
      var id := stack[|stack| - 1].id;
      stack := stack[..|stack| - 1];
      freeFrames := freeFrames + [id];
    }

    /** `scope_stack_pop_var_scope`: the top must be a variable scope. */
    method PopVar()
      requires Valid() && |stack| > 0 && stack[|stack| - 1].OfVar?
      modifies this
      ensures Contents() == Pop(old(Contents()), VarKind) && Valid()
    {
      PopKeeps(Contents(), VarKind);
      var id := stack[|stack| - 1].id;
      stack := stack[..|stack| - 1];
      freeVars := freeVars + [id];
    }

    /** `scope_stack_pop_loop_scope`: the top must be a loop scope. */
    method PopLoop()
      requires Valid() && |stack| > 0 && stack[|stack| - 1].OfLoop?
      modifies this
      ensures Contents() == Pop(old(Contents()), LoopKind) && Valid()
    {
      PopKeeps(Contents(), LoopKind);
      var id := stack[|stack| - 1].id;
      stack := stack[..|stack| - 1];
      freeLoops := freeLoops + [id];
    }

    /**
     * `scope_stack_last_frame_or_var_scope`: walks down past loop scopes;
     * a frame or variable scope must be below them.
     */
    method LastFrameOrVar() returns (k: nat)
      requires LastFrameOrVarAt(stack).Some?
      ensures Some(k) == LastFrameOrVarAt(stack)
    {
      var i := |stack|;
      assert stack[..i] == stack;
      while stack[i - 1].OfLoop?
        invariant 0 < i <= |stack|
        invariant LastFrameOrVarAt(stack[..i]) == LastFrameOrVarAt(stack)
        decreases i
      {
        assert stack[..i][..i - 1] == stack[..i - 1];
        i := i - 1;
        assert LastFrameOrVarAt(stack[..i]).Some?;
      }
      k := i - 1;
    }

    /**
     * `scope_stack_last_frame_scope`: the frame scope itself, or the frame
     * of the variable scope, whichever the walk down meets first.
     */
    method LastFrame() returns (id: nat)
      requires FrameOf(stack).Some?
      ensures Some(id) == FrameOf(stack)
    {
      var i := |stack|;
      assert stack[..i] == stack;
      while true
        invariant 0 < i <= |stack|
        invariant LastFrameOrVarAt(stack[..i]) == LastFrameOrVarAt(stack)
        decreases i
      {
        match stack[i - 1]
        case OfFrame(f) =>
          return f;
        case OfVar(_, f) =>
          return f;
        case OfLoop(_) =>
          assert stack[..i][..i - 1] == stack[..i - 1];
          i := i - 1;
          assert LastFrameOrVarAt(stack[..i]).Some?;
      }
    }

    /**
     * `scope_stack_last_loop_scope`: the nearest loop scope, or none when a
     * frame scope or the bottom comes first.
     */
    method LastLoop() returns (r: Option<nat>)
      ensures r == LoopOf(stack)
    {
      var i := |stack|;
      assert stack[..i] == stack;
      while i > 0 && !stack[i - 1].OfLoop?
        invariant 0 <= i <= |stack|
        invariant LastLoopAt(stack[..i]) == LastLoopAt(stack)
        decreases i
      {
        if stack[i - 1].OfFrame? {
          return None;
        }
        assert stack[..i][..i - 1] == stack[..i - 1];
        i := i - 1;
      }
      if i == 0 {
        return None;
      }
      return Some(stack[i - 1].id);
    }
  }

  /* ----- variable scopes -------------------------------------------------- */

  /**
   * `struct var_scope` with its names; `frame` is the frame scope it
   * allocates in.
   */
  class VarScope {
    const frame: Codegen.FrameScope
    var names: seq<string>

    /** `var_scope_create`, attached to its frame. */
    constructor(frame: Codegen.FrameScope)
      ensures this.frame == frame && names == []
    {
      this.frame := frame;
      names := [];
    }

    /** `var_scope_alloc_var`: records the name and gives it a register in the frame. */
    method AllocVar(name: string) returns (reg: nat)
      requires frame.Valid() && name !in frame.vars
      modifies this, frame
      ensures names == old(names) + [name]
      ensures (frame.State(), reg) == Codegen.Allocate(old(frame.State()), 1)
      ensures frame.vars == old(frame.vars)[name := reg] && frame.Valid()
    {
      names := names + [name];
      reg := frame.AllocVar(name);
    }

    /**
     * `var_scope_free_vars` then `var_scope_reset`: frees the variables
     * last first; afterwards exactly their registers have become available
     * again and the frame no longer knows their names.
     */
    method FreeVars()
      requires frame.Valid() && Distinct(names)
      requires forall i :: 0 <= i < |names| ==> names[i] in frame.vars
      modifies this, frame
      ensures names == [] && frame.Valid()
      ensures frame.vars == old(frame.vars) - NameSet(old(names))
      ensures forall x: nat :: Codegen.Available(frame.State(), x) <==>
        Codegen.Available(old(frame.State()), x) || RegOf(old(frame.vars), old(names), x)
    {
      ghost var vars0 := frame.vars;
      ghost var f0 := frame.State();
      var i := |names|;
      assert names[i..] == [];
      while i > 0
        invariant 0 <= i <= |names| && names == old(names) && frame.Valid()
        invariant forall j :: 0 <= j < |names| ==> names[j] in vars0
        invariant frame.vars == vars0 - NameSet(names[i..])
        invariant forall x: nat :: Codegen.Available(frame.State(), x) <==>
          Codegen.Available(f0, x) || RegOf(vars0, names[i..], x)
      {
        var name := names[i - 1];
        assert name !in names[i..];
        ghost var f := frame.State();
        ghost var reg := frame.vars[name];
        assert reg == vars0[name];
        assert !Codegen.Available(f, reg);
        Codegen.ReleaseReturns(f, reg, 1);
        frame.FreeVar(name);
        i := i - 1;
        RegOfStep(vars0, names, i);
      }
      names := [];
    }
  }

  /** The names on the list. */
  function NameSet(names: seq<string>): set<string> {
    set v | v in names
  }

  /** No name twice. */
  predicate Distinct(names: seq<string>) {
    forall i, j :: 0 <= i < j < |names| ==> names[i] != names[j]
  }

  /** Register `x` belongs to one of the named variables. */
  predicate RegOf(vars: map<string, nat>, names: seq<string>, x: nat) {
    exists i :: 0 <= i < |names| && names[i] in vars && vars[names[i]] == x
  }

  /** The variables from `i` on own the register of variable `i` and those from `i + 1` on. */
  lemma RegOfStep(vars: map<string, nat>, names: seq<string>, i: nat)
    requires i < |names| && names[i] in vars
    ensures NameSet(names[i..]) == NameSet(names[i + 1..]) + {names[i]}
    ensures forall x :: RegOf(vars, names[i..], x) <==> x == vars[names[i]] || RegOf(vars, names[i + 1..], x)
  {
    var t := names[i..];
    assert t == [names[i]] + names[i + 1..];
    forall x | RegOf(vars, names[i + 1..], x)
      ensures RegOf(vars, t, x)
    {
      var j :| 0 <= j < |names[i + 1..]| && names[i + 1..][j] in vars && vars[names[i + 1..][j]] == x;
      assert t[j + 1] == names[i + 1..][j];
    }
    assert t[0] == names[i];
  }
}
