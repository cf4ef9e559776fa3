/**
 * The expression builder of the parser (core/parser.c): a shunting-yard
 * machine with an operator stack and an operand stack, and the loop of
 * `parse_expression` that feeds it tokens.  Each operator-stack entry packs
 * a token type and the magnitude of its precedence into one small integer,
 * `(type << 8) | |prec|`; a '(' is pushed with precedence 253 so that no
 * operator reduces past it.
 */
module Parser {
  import opened Wrappers
  import opened Token
  import Lexer

  /** The expression nodes the builder makes. */
  datatype Node =
    | Constant(literal: Lexer.Value)
    | Name(id: string)
    | Nil
    | Bool(b: bool)
    | Unary(op: TokenType, operand: Node)
    | Binary(op: TokenType, lhs: Node, rhs: Node)
    | Assign(target: Node, source: Node)
    | Field(base: Node, name: string)
    | Send(receiver: SendTarget, selector: string, args: seq<Node>)
    | Call(callee: Node, args: seq<Node>)

  /**
   * The receiver a send node records: the node that the ':' operator
   * popped as its left operand, or (as core/parser.c:418 stores it) the
   * send node itself.
   */
  datatype SendTarget = SelfRef | Target(node: Node)

  /** The errors the parser reports (and leaves through its error jump). */
  datatype ParseError =
    | TooFewOperands(op: TokenType)
    | UnexpectedNode(node: Node)
    | ExpectedExpression
    | UnexpectedExpression
    | UnexpectedToken
    | NotImplemented
    | UnclosedParen

  /** How a step of the builder ends; `Unreachable` is reaching `zis_unreachable()`. */
  datatype Status = Success | Failure(error: ParseError) | Unreachable

  // ----- operator-stack entries -----

  /** The magnitude of an operator's precedence, the low byte of its entry. */
  function Magnitude(t: TokenType): (m: nat)
    requires IsOperator(t)
    ensures 1 <= m <= 15
  {
    PrecedenceRange(t);
    if Precedence(t) < 0 then -Precedence(t) else Precedence(t)
  }

  /**
   * `op_prec_cmp`: entries whose magnitude is at most this are reduced
   * before the operator is pushed; one less than the magnitude for a
   * right-to-left operator, so that an equal one stays.
   */
  function Threshold(t: TokenType): (c: int)
    requires IsOperator(t)
    ensures 0 <= c <= 15
  {
    if Precedence(t) > 0 then Magnitude(t) else Magnitude(t) - 1
  }

  /**
   * `(type << 8) | prec_abs`, the entry pushed for an operator; it decodes
   * to the operator and the magnitude it was packed from.
   */
  function Entry(t: TokenType): (e: int)
    requires IsOperator(t)
    ensures TypeOf(e) == t as int && PrecOf(e) == Magnitude(t)
    ensures IsEntry(e) && e != LParenEntry && Bound(e) == Threshold(t)
  {
    RightToLeft(t);
    t as int * 256 + Magnitude(t)
  }

  /** The entry `expr_builder_put_l_paren` pushes: '(' with precedence 253. */
  const LParenEntry: int := LParen as int * 256 + 253

  /** The token type of an entry, `smallint >> 8`. */
  function TypeOf(e: int): int {
    e / 256
  }

  /** The precedence magnitude of an entry, `(uint8_t)smallint`. */
  function PrecOf(e: int): int {
    e % 256
  }

  /** The entries the builder pushes: the '(' entry, or an operator with a magnitude from 1 to 15. */
  predicate IsEntry(e: int) {
    e == LParenEntry || (0 <= e && TypeOf(e) <= OpCall as int && 1 <= PrecOf(e) <= 15)
  }

  /** The operators whose precedence is negative: the unary ones, '=' and the compound assignments. */
  predicate RightAssoc(t: int) {
    0 <= t <= OpNot as int || t == OpEql as int || OpAddEql as int <= t <= OpBitXorEql as int
  }

  /** The '(' entry decodes to L_PAREN and 253, above every operator's threshold. */
  lemma LParenEntryParts()
    ensures TypeOf(LParenEntry) == LParen as int && PrecOf(LParenEntry) == 253
  {
  }

  /**
   * The threshold an entry was pushed with, read back from the entry: its
   * magnitude, less one for a right-to-left operator; nothing was reduced
   * for a '('.
   */
  function Bound(e: int): int {
    if 0 <= TypeOf(e) <= OpCall as int then (if RightAssoc(TypeOf(e)) then PrecOf(e) - 1 else PrecOf(e))
    else 0
  }

  predicate WellFormed(ops: seq<int>) {
    forall k :: 0 <= k < |ops| ==> IsEntry(ops[k])
  }

  /**
   * The shunting-yard invariant: every entry sits on one whose magnitude
   * is above the threshold it was pushed with, so an entry never sits on
   * one that binds at least as tightly (for a right-to-left operator: more
   * tightly).
   */
  predicate Stacked(ops: seq<int>) {
    WellFormed(ops) && forall k :: 0 < k < |ops| ==> Bound(ops[k]) < PrecOf(ops[k - 1])
  }

  /** Popping entries keeps both invariants. */
  lemma StackedPrefix(ops: seq<int>, n: nat)
    requires n <= |ops|
    ensures WellFormed(ops) ==> WellFormed(ops[..n])
    ensures Stacked(ops) ==> Stacked(ops[..n])
  {
  }

  /** Pushing an entry whose threshold is below the top entry's magnitude keeps the invariant. */
  lemma StackedPush(ops: seq<int>, e: int)
    requires Stacked(ops) && IsEntry(e)
    requires |ops| == 0 || Bound(e) < PrecOf(ops[|ops| - 1])
    ensures Stacked(ops + [e])
  {
  }

  /** The two stacks of `struct expr_builder_state`. */
  datatype Stacks = Stacks(ops: seq<int>, vals: seq<Node>)

  /** The status of a builder step and the stacks after it. */
  datatype Step = Step(status: Status, st: Stacks)

  /** How many operands an operator consumes. */
  function Arity(t: TokenType): nat {
    if IsBinOp(t) then 2 else 1
  }

  /**
   * The node a binary operator makes of its two operands, with the checks
   * on the right-hand node: "." wants a name, ":" a call of a name, the
   * call operator a call node (its callee is filled in).  "op=" is built
   * as an assignment of `lhs op rhs` to `lhs`, "=" as an assignment.  A
   * send records its left operand as its target; `CombineAsWritten` is
   * the source's version, which records the send node itself.
   */
  function Combine(op: TokenType, lhs: Node, rhs: Node): (r: Result<Node, ParseError>)
    requires IsBinOp(op)
    ensures r.Err? ==> r.error.UnexpectedNode?
    ensures r.Err? <==> (op == OpPeriod && !rhs.Name?) || (op == OpCall && !rhs.Call?) ||
                        (op == OpColon && !(rhs.Call? && rhs.callee.Name?))
    ensures r.Ok? && op == OpColon ==>
              r.value.Send? && r.value.receiver == Target(lhs) &&
              r.value.selector == rhs.callee.id && r.value.args == rhs.args
  {
    if op == OpPeriod then
      if rhs.Name? then Ok(Field(lhs, rhs.id)) else Err(UnexpectedNode(rhs))
    else if op == OpColon then
      if !rhs.Call? then Err(UnexpectedNode(rhs))
      else if !rhs.callee.Name? then Err(UnexpectedNode(rhs.callee))
      else Ok(Send(Target(lhs), rhs.callee.id, rhs.args))
    else if op == OpCall then
      if rhs.Call? then Ok(Call(lhs, rhs.args)) else Err(UnexpectedNode(rhs))
    else if IsEqlOp(op) then Ok(Assign(lhs, Binary(op - (OpAddEql - OpAdd), lhs, rhs)))
    else if op == OpEql then Ok(Assign(lhs, rhs))
    else Ok(Binary(op, lhs, rhs))
  }

  /**
   * `Combine` as core/parser.c:404-424 writes it: the ':' case pops the
   * target node, uses it only for the source positions, and stores the
   * send node itself as the target.  Every other operator is as `Combine`.
   */
  function CombineAsWritten(op: TokenType, lhs: Node, rhs: Node): (r: Result<Node, ParseError>)
    requires IsBinOp(op)
    ensures op != OpColon ==> r == Combine(op, lhs, rhs)
    ensures r.Err? <==> Combine(op, lhs, rhs).Err?
    ensures r.Ok? && op == OpColon ==> r.value.Send? && r.value.receiver == SelfRef
  {
    match Combine(op, lhs, rhs)
    case Ok(Send(_, m, args)) => Ok(Send(SelfRef, m, args))
    case other => other
  }

  /**
   * As written, the target of a send is lost: `a:m()` and `b:m()` build
   * the same node for any two targets, whereas the corrected nodes differ.
   */
  lemma AsWrittenSendDropsTarget(a: Node, b: Node, m: string, args: seq<Node>)
    requires a != b
    ensures CombineAsWritten(OpColon, a, Call(Name(m), args)) == CombineAsWritten(OpColon, b, Call(Name(m), args))
    ensures Combine(OpColon, a, Call(Name(m), args)) != Combine(OpColon, b, Call(Name(m), args))
  {
    assert Combine(OpColon, a, Call(Name(m), args)).value.receiver == Target(a);
  }

  /** A corrected send keeps its target: sends built over different targets differ. */
  lemma SendKeepsTarget(a: Node, b: Node, rhs: Node)
    requires Combine(OpColon, a, rhs).Ok? && Combine(OpColon, b, rhs) == Combine(OpColon, a, rhs)
    ensures a == b
  {
    assert Target(a) == Combine(OpColon, a, rhs).value.receiver == Target(b);
  }

  /**
   * `expr_builder_gen_one_expr`: pop the top entry and reduce it with its
   * operands.  Too few operands is an error (one operand is popped for the
   * error position); a '(' entry with an operand reaches the unreachable
   * default of the switch.
   */
  function Reduce(s: Stacks): (r: Step)
    requires |s.ops| > 0 && IsEntry(s.ops[|s.ops| - 1])
    ensures r.st.ops == s.ops[..|s.ops| - 1]
    ensures r.status == Unreachable <==> TypeOf(s.ops[|s.ops| - 1]) == LParen as int && |s.vals| >= 1
  {
    var ops := s.ops[..|s.ops| - 1];
    var n := |s.vals|;
    var popped := if n == 0 then s.vals else s.vals[..n - 1];
    if TypeOf(s.ops[|s.ops| - 1]) == LParen as int then
      if n < 1 then Step(Failure(TooFewOperands(LParen)), Stacks(ops, popped))
      else Step(Unreachable, Stacks(ops, s.vals))
    else
      var t := TypeOf(s.ops[|s.ops| - 1]) as TokenType;
      if n < Arity(t) then Step(Failure(TooFewOperands(t)), Stacks(ops, popped))
      else if IsUnOp(t) then Step(Success, Stacks(ops, s.vals[..n - 1] + [Unary(t, s.vals[n - 1])]))
      else
        match Combine(t, s.vals[n - 2], s.vals[n - 1])
        case Ok(node) => Step(Success, Stacks(ops, s.vals[..n - 2] + [node]))
        case Err(e) => Step(Failure(e), Stacks(ops, s.vals[..n - 2]))
  }

  /**
   * Reducing an operator entry fails for too few operands exactly when
   * fewer than its arity are there, and on success replaces that many top
   * operands by one node, leaving the ones below.
   */
  lemma ReduceArity(s: Stacks)
    requires |s.ops| > 0 && IsEntry(s.ops[|s.ops| - 1]) && TypeOf(s.ops[|s.ops| - 1]) != LParen as int
    ensures var t := TypeOf(s.ops[|s.ops| - 1]) as TokenType;
            var r := Reduce(s);
            (r.status == Failure(TooFewOperands(t)) <==> |s.vals| < Arity(t)) &&
            (r.status == Success ==>
               |s.vals| >= Arity(t) && |r.st.vals| == |s.vals| - Arity(t) + 1 &&
               r.st.vals[..|r.st.vals| - 1] == s.vals[..|s.vals| - Arity(t)])
  {
    var t := TypeOf(s.ops[|s.ops| - 1]) as TokenType;
    var n := |s.vals|;
    var r := Reduce(s);
    if n >= Arity(t) && r.status == Success {
      if IsUnOp(t) {
        assert r.st.vals[..|r.st.vals| - 1] == s.vals[..n - 1];
      } else {
        assert r.st.vals[..|r.st.vals| - 1] == s.vals[..n - 2];
      }
    }
  }

  /** A compound assignment `a op= b` becomes `a = a op b`, with the operator spelled without its '='. */
  lemma CompoundAssignment(ops: seq<int>, pre: seq<Node>, op: TokenType, a: Node, b: Node)
    requires IsEqlOp(op)
    ensures var r := Reduce(Stacks(ops + [Entry(op)], pre + [a, b]));
            var plain := op - (OpAddEql - OpAdd);
            r == Step(Success, Stacks(ops, pre + [Assign(a, Binary(plain, a, b))])) &&
            IsBinOp(plain) && Spelling(op) == Spelling(plain) + "="
  {
    EqlOpSpelling(op);
    var s := Stacks(ops + [Entry(op)], pre + [a, b]);
    assert s.ops[..|s.ops| - 1] == ops;
    assert s.vals[..|s.vals| - 2] == pre;
  }

  /** `expr_builder_put_operator`'s loop: reduce while the top entry's magnitude is at most `cmp`. */
  function Settle(s: Stacks, cmp: int): (r: Step)
    requires WellFormed(s.ops) && cmp < 253
    ensures r.status != Unreachable
    ensures r.st.ops <= s.ops
    ensures r.status == Success ==> |r.st.ops| == 0 || cmp < PrecOf(r.st.ops[|r.st.ops| - 1])
    decreases |s.ops|
  {
    if |s.ops| == 0 || cmp < PrecOf(s.ops[|s.ops| - 1]) then Step(Success, s)
    else
      LParenEntryParts();
      StackedPrefix(s.ops, |s.ops| - 1);
      var r := Reduce(s);
      if r.status != Success then r else Settle(r.st, cmp)
  }

  /** Every entry the loop pops has a magnitude of at most `cmp`: exactly the ones that bind at least as tightly go. */
  lemma {:induction false} SettlePopsTighter(s: Stacks, cmp: int)
    requires WellFormed(s.ops) && cmp < 253
    ensures var r := Settle(s, cmp);
            forall k :: |r.st.ops| <= k < |s.ops| ==> PrecOf(s.ops[k]) <= cmp
    decreases |s.ops|
  {
    if |s.ops| == 0 || cmp < PrecOf(s.ops[|s.ops| - 1]) {
      assert Settle(s, cmp) == Step(Success, s);
    } else {
      var n := |s.ops|;
      var r := Reduce(s);
      if r.status == Success {
        var q := Settle(r.st, cmp);
        assert Settle(s, cmp) == q;
        SettlePopsTighter(r.st, cmp);
        PopsOneMore(s.ops, r.st.ops, |q.st.ops|, cmp);
      } else {
        assert Settle(s, cmp) == r && |r.st.ops| == n - 1;
      }
    }
  }

  /** The entries from `m` below the top bind at least as tightly as `cmp`, and so does the top. */
  lemma PopsOneMore(ops: seq<int>, init: seq<int>, m: nat, cmp: int)
    requires 0 < |ops| && init == ops[..|ops| - 1] && m <= |init| && PrecOf(ops[|ops| - 1]) <= cmp
    requires forall k :: m <= k < |init| ==> PrecOf(init[k]) <= cmp
    ensures forall k :: m <= k < |ops| ==> PrecOf(ops[k]) <= cmp
  {
    forall k | m <= k < |ops| - 1
      ensures PrecOf(ops[k]) <= cmp
    {
      assert ops[k] == init[k];
    }
  }

  /**
   * `expr_builder_put_operator`: reduce the entries that bind at least as
   * tightly, then push the operator's entry.
   */
  function PushOperator(s: Stacks, op: TokenType): (r: Step)
    requires Stacked(s.ops) && IsOperator(op)
    ensures r.status != Unreachable && Stacked(r.st.ops)
    ensures r.status == Success ==>
              |r.st.ops| > 0 && r.st.ops[|r.st.ops| - 1] == Entry(op) && r.st.ops[..|r.st.ops| - 1] <= s.ops
  {
    var r := Settle(s, Threshold(op));
    assert r.st.ops == s.ops[..|r.st.ops|];
    StackedPrefix(s.ops, |r.st.ops|);
    if r.status != Success then r
    else
      StackedPush(r.st.ops, Entry(op));
      var ops := r.st.ops + [Entry(op)];
      assert ops[..|ops| - 1] == r.st.ops;
      Step(Success, Stacks(ops, r.st.vals))
  }

  /** The index of the topmost '(' entry, if any. */
  function LastParen(ops: seq<int>): (r: Option<nat>)
    ensures r.Some? ==> r.value < |ops| && TypeOf(ops[r.value]) == LParen as int
    ensures r.Some? ==> forall k :: r.value < k < |ops| ==> TypeOf(ops[k]) != LParen as int
    ensures r.None? ==> forall k :: 0 <= k < |ops| ==> TypeOf(ops[k]) != LParen as int
  {
    if |ops| == 0 then None
    else if TypeOf(ops[|ops| - 1]) == LParen as int then Some(|ops| - 1)
    else LastParen(ops[..|ops| - 1])
  }

  /**
   * `expr_builder_put_r_paren`: reduce up to the topmost '(' and pop it,
   * answering true; with no '(' everything is reduced and the answer is
   * false.
   */
  function CloseParen(s: Stacks): (r: (Step, bool))
    requires Stacked(s.ops)
    ensures r.0.status != Unreachable && Stacked(r.0.st.ops)
    decreases |s.ops|
  {
    if |s.ops| == 0 then (Step(Success, s), false)
    else if TypeOf(s.ops[|s.ops| - 1]) == LParen as int then
      (Step(Success, Stacks(s.ops[..|s.ops| - 1], s.vals)), true)
    else
      var r := Reduce(s);
      if r.status != Success then (r, false) else CloseParen(r.st)
  }

  /**
   * Closing succeeds with `true` exactly when a '(' is on the stack, and
   * leaves the entries below the topmost one; with `false` the stack is
   * empty.
   */
  lemma {:induction false} CloseParenFinds(s: Stacks)
    requires Stacked(s.ops)
    ensures var r := CloseParen(s);
            r.0.status == Success ==>
              (r.1 <==> LastParen(s.ops).Some?) &&
              (r.1 ==> r.0.st.ops == s.ops[..LastParen(s.ops).value]) &&
              (!r.1 ==> r.0.st.ops == [])
    decreases |s.ops|
  {
    var n := |s.ops|;
    if n > 0 && TypeOf(s.ops[n - 1]) != LParen as int {
      var r := Reduce(s);
      if r.status == Success {
        assert CloseParen(s) == CloseParen(r.st);
        assert LastParen(s.ops) == LastParen(r.st.ops);
        CloseParenFinds(r.st);
        var p := LastParen(r.st.ops);
        if p.Some? {
          assert r.st.ops[..p.value] == s.ops[..p.value];
        }
      }
    }
  }

  /**
   * `expr_builder_generate_expr`: reduce every entry, then exactly one
   * operand must be left.  As written (`fixed` false) a '(' that was never
   * closed is reduced like an operator; corrected, it is reported.
   */
  function Finish(s: Stacks, fixed: bool): (r: (Status, Option<Node>))
    requires WellFormed(s.ops)
    ensures r.0 == Success <==> r.1.Some?
    ensures |s.ops| == 0 ==> (r.0 == Success <==> |s.vals| == 1)
    ensures |s.ops| == 0 && r.0 == Success ==> r.1 == Some(s.vals[0])
    decreases |s.ops|
  {
    if |s.ops| > 0 then
      if fixed && TypeOf(s.ops[|s.ops| - 1]) == LParen as int then (Failure(UnclosedParen), None)
      else
        var r := Reduce(s);
        if r.status != Success then (r.status, None) else Finish(r.st, fixed)
    else if |s.vals| == 0 then (Failure(ExpectedExpression), None)
    else if |s.vals| > 1 then (Failure(UnexpectedExpression), None)
    else (Success, Some(s.vals[0]))
  }

  /** Corrected, finishing never reaches the unreachable default, and never succeeds with a '(' left open. */
  lemma {:induction false} FinishFixed(s: Stacks)
    requires WellFormed(s.ops)
    ensures Finish(s, true).0 != Unreachable
    ensures LastParen(s.ops).Some? ==> Finish(s, true).0 != Success
    decreases |s.ops|
  {
    if |s.ops| > 0 && TypeOf(s.ops[|s.ops| - 1]) != LParen as int {
      var r := Reduce(s);
      if r.status == Success {
        FinishFixed(r.st);
      }
    }
  }

  /** As written, "(1" leaves a '(' entry over one operand, and finishing reaches the unreachable default. */
  lemma AsWrittenUnclosedParen(x: Node)
    ensures Finish(Stacks([LParenEntry], [x]), false) == (Unreachable, None)
    ensures Finish(Stacks([LParenEntry], [x]), true) == (Failure(UnclosedParen), None)
  {
    LParenEntryParts();
  }

  // ----- the builder object -----

  /** `struct expr_builder_state`: the operator and operand stacks, changed in place. */
  class ExprBuilder {
    var operators: seq<int>
    var operands: seq<Node>

    ghost predicate Valid()
      reads this
    {
      Stacked(operators)
    }

    function State(): Stacks
      reads this
    {
      Stacks(operators, operands)
    }

    /** `expr_builder_init`: two empty stacks. */
    constructor ()
      ensures Valid() && operators == [] && operands == []
    {
      operators := [];
      operands := [];
    }

    /** `expr_builder_put_operand`. */
    method PutOperand(node: Node)
      requires Valid()
      modifies this
      ensures Valid() && operators == old(operators) && operands == old(operands) + [node]
    {
      operands := operands + [node];
    }

    /** `expr_builder_pop_operand`: the top operand, removed, or nothing when there is none. */
    method PopOperand() returns (node: Option<Node>)
      requires Valid()
      modifies this
      ensures Valid() && operators == old(operators)
      ensures |old(operands)| == 0 ==> node == None && operands == old(operands)
      ensures |old(operands)| > 0 ==>
                node == Some(old(operands)[|old(operands)| - 1]) && operands == old(operands)[..|old(operands)| - 1]
    {
      if |operands| == 0 {
        return None;
      }
      node := Some(operands[|operands| - 1]);
      operands := operands[..|operands| - 1];
    }

    /** `expr_builder_gen_one_expr`, on the stacks in place. */
    method GenOneExpr() returns (status: Status)
      requires Valid() && |operators| > 0
      modifies this
      ensures Valid() && Step(status, State()) == Reduce(old(State()))
    {
      var top := operators[|operators| - 1];
      StackedPrefix(operators, |operators| - 1);
      operators := operators[..|operators| - 1];
      var n := |operands|;
      if TypeOf(top) == LParen as int {
        if n < 1 {
          return Failure(TooFewOperands(LParen));
        }
        return Unreachable;
      }
      var t := TypeOf(top) as TokenType;
      if n < Arity(t) {
        if n > 0 {
          operands := operands[..n - 1];
        }
        return Failure(TooFewOperands(t));
      }
      if IsUnOp(t) {
        var value := operands[n - 1];
        operands := operands[..n - 1] + [Unary(t, value)];
        return Success;
      }
      var rhs := operands[n - 1];
      var lhs := operands[n - 2];
      operands := operands[..n - 2];
      var node := Combine(t, lhs, rhs);
      if node.Err? {
        return Failure(node.error);
      }
      operands := operands + [node.value];
      return Success;
    }

    /** `expr_builder_put_operator`. */
    method PutOperator(op: TokenType) returns (status: Status)
      requires Valid() && IsOperator(op)
      modifies this
      ensures Valid() && Step(status, State()) == PushOperator(old(State()), op)
    {
      var cmp := Threshold(op);
      LParenEntryParts();
      while |operators| > 0 && PrecOf(operators[|operators| - 1]) <= cmp
        invariant Valid()
        invariant Settle(State(), cmp) == Settle(old(State()), cmp)
        decreases |operators|
      {
        status := GenOneExpr();
        if status != Success {
          return;
        }
      }
      assert Settle(State(), cmp) == Step(Success, State());
      StackedPush(operators, Entry(op));
      operators := operators + [Entry(op)];
      return Success;
    }

    /** `expr_builder_put_l_paren`. */
    method PutLParen()
      requires Valid()
      modifies this
      ensures Valid() && operators == old(operators) + [LParenEntry] && operands == old(operands)
    {
      LParenEntryParts();
      operators := operators + [LParenEntry];
    }

    /** `expr_builder_put_r_paren`. */
    method PutRParen() returns (status: Status, found: bool)
      requires Valid()
      modifies this
      ensures Valid() && (Step(status, State()), found) == CloseParen(old(State()))
    {
      while |operators| > 0 && TypeOf(operators[|operators| - 1]) != LParen as int
        invariant Valid()
        invariant CloseParen(State()) == CloseParen(old(State()))
        decreases |operators|
      {
        status := GenOneExpr();
        if status != Success {
          return status, false;
        }
      }
      if |operators| == 0 {
        assert CloseParen(State()) == (Step(Success, State()), false);
        return Success, false;
      }
      ghost var before := State();
      operators := operators[..|operators| - 1];
      assert CloseParen(before) == (Step(Success, State()), true);
      return Success, true;
    }

    /** `expr_builder_generate_expr`. */
    method GenerateExpr(fixed: bool) returns (status: Status, node: Option<Node>)
      requires Valid()
      modifies this
      ensures (status, node) == Finish(old(State()), fixed)
    {
      while |operators| > 0
        invariant Valid()
        invariant Finish(State(), fixed) == Finish(old(State()), fixed)
        decreases |operators|
      {
        if fixed && TypeOf(operators[|operators| - 1]) == LParen as int {
          return Failure(UnclosedParen), None;
        }
        status := GenOneExpr();
        if status != Success {
          return status, None;
        }
      }
      if |operands| == 0 {
        return Failure(ExpectedExpression), None;
      }
      if |operands| > 1 {
        return Failure(UnexpectedExpression), None;
      }
      return Success, Some(operands[0]);
    }
  }

  // ----- parse_expression -----

  /** Identifier tokens carry their names, as the lexer makes them. */
  predicate FromLexer(toks: seq<Lexer.Tok>) {
    forall k :: 0 <= k < |toks| && toks[k].kind == Identifier ==> toks[k].value.Name?
  }

  /** The operator a token stands for: '+' and '-' in operand position are POS and NEG. */
  function Operator(t: TokenType, last: bool): (op: TokenType)
    requires IsOperator(t)
    ensures IsOperator(op)
    ensures op == t || (!last && (t, op) in {(OpAdd, OpPos), (OpSub, OpNeg)})
  {
    if !last && t == OpAdd then OpPos
    else if !last && t == OpSub then OpNeg
    else t
  }

  /** What one iteration of the loop does: go on with the next token, or leave the loop. */
  datatype Move = Continue(last: bool, st: Stacks) | Stop(step: Step, next: nat)

  /**
   * One iteration of the loop of `parse_expression` on token `i`, `last`
   * telling whether the previous token was an operand.  Literals, `nil`,
   * `true`, `false` and names are operands; operators go through
   * `put_operator`; a '(' in operand position opens a group and a ')' that
   * finds its '(' closes one.  The tuple, array, map, call-argument and
   * subscript parsers are not implemented in the source, so reaching them is
   * an error; any other token ends the expression without being consumed.
   */
  function Advance(toks: seq<Lexer.Tok>, i: nat, last: bool, s: Stacks): (m: Move)
    requires i < |toks| && FromLexer(toks) && Stacked(s.ops)
    ensures m.Continue? ==> Stacked(m.st.ops)
    ensures m.Stop? ==> m.step.status != Unreachable && i <= m.next <= i + 1
  {
    var t := toks[i].kind;
    if IsLiteral(t) then Continue(true, Stacks(s.ops, s.vals + [Constant(toks[i].value)]))
    else if IsOperator(t) then
      var r := PushOperator(s, Operator(t, last));
      if r.status != Success then Stop(r, i + 1) else Continue(false, r.st)
    else if t == LParen then
      if last then
        var r := PushOperator(s, OpCall);
        Stop(if r.status != Success then r else Step(Failure(NotImplemented), r.st), i)
      else if i + 1 < |toks| && toks[i + 1].kind == RParen then Stop(Step(Failure(NotImplemented), s), i + 1)
      else
        LParenEntryParts();
        Continue(false, Stacks(s.ops + [LParenEntry], s.vals))
    else if t == RParen then
      var (r, found) := CloseParen(s);
      if r.status != Success || !found then Stop(r, i + 1) else Continue(true, r.st)
    else if t == LBracket then
      if last then
        var r := PushOperator(s, OpSubscript);
        Stop(if r.status != Success then r else Step(Failure(NotImplemented), r.st), i)
      else Stop(Step(Failure(NotImplemented), s), i)
    else if t == LBrace then Stop(Step(Failure(if last then UnexpectedToken else NotImplemented), s), i)
    else if t == Comma then
      var (r, found) := CloseParen(s);
      if r.status != Success || !found || |r.st.vals| == 0 then Stop(r, i)
      else Stop(Step(Failure(NotImplemented), Stacks(r.st.ops, r.st.vals[..|r.st.vals| - 1])), i + 1)
    else if t == KwNil then Continue(true, Stacks(s.ops, s.vals + [Nil]))
    else if t == KwTrue || t == KwFalse then Continue(true, Stacks(s.ops, s.vals + [Bool(t == KwTrue)]))
    else if t == Identifier then Continue(true, Stacks(s.ops, s.vals + [Name(toks[i].value.text)]))
    else Stop(Step(Success, s), i)
  }

  /**
   * The loop of `parse_expression` from token `i`: the builder's status and
   * stacks when the loop ends, and the index of the token it ended at.
   */
  function Build(toks: seq<Lexer.Tok>, i: nat, last: bool, s: Stacks): (r: (Step, nat))
    requires i <= |toks| && FromLexer(toks) && Stacked(s.ops)
    ensures r.0.status != Unreachable && Stacked(r.0.st.ops) && i <= r.1 <= |toks|
    decreases |toks| - i
  {
    if i == |toks| then (Step(Success, s), i)
    else
      match Advance(toks, i, last, s)
      case Continue(last', next) => Build(toks, i + 1, last', next)
      case Stop(step, j) => (step, j)
  }

  /** The result of `parse_expression`: a status, the expression on success, and where it ended. */
  datatype Parsed = Parsed(status: Status, node: Option<Node>, next: nat)

  /** `parse_expression` over a token list: the loop, then `expr_builder_generate_expr`. */
  function ParseSpec(toks: seq<Lexer.Tok>, fixed: bool): (r: Parsed)
    requires FromLexer(toks)
    ensures r.status == Success <==> r.node.Some?
    ensures r.next <= |toks|
  {
    var (step, next) := Build(toks, 0, false, Stacks([], []));
    if step.status != Success then Parsed(step.status, None, next)
    else
      var (status, node) := Finish(step.st, fixed);
      Parsed(status, node, next)
  }

  /** Corrected, parsing an expression never reaches the unreachable default. */
  lemma ParseFixedReachable(toks: seq<Lexer.Tok>)
    requires FromLexer(toks)
    ensures ParseSpec(toks, true).status != Unreachable
  {
    var (step, next) := Build(toks, 0, false, Stacks([], []));
    if step.status == Success {
      FinishFixed(step.st);
    }
  }

  /** The body of the loop of `parse_expression`: one token, fed to the builder. */
  method Feed(b: ExprBuilder, toks: seq<Lexer.Tok>, i: nat, last: bool) returns (m: Move)
    requires i < |toks| && FromLexer(toks) && b.Valid()
    modifies b
    ensures m == Advance(toks, i, last, old(b.State()))
    ensures b.Valid() && b.State() == (if m.Continue? then m.st else m.step.st)
  {
    var t := toks[i].kind;
    if IsLiteral(t) {
      b.PutOperand(Constant(toks[i].value));
      return Continue(true, b.State());
    } else if IsOperator(t) {
      var status := b.PutOperator(Operator(t, last));
      if status != Success {
        return Stop(Step(status, b.State()), i + 1);
      }
      return Continue(false, b.State());
    } else if t == LParen {
      if last {
        var status := b.PutOperator(OpCall);
        return Stop(Step(if status != Success then status else Failure(NotImplemented), b.State()), i);
      }
      if i + 1 < |toks| && toks[i + 1].kind == RParen {
        return Stop(Step(Failure(NotImplemented), b.State()), i + 1);
      }
      b.PutLParen();
      return Continue(false, b.State());
    } else if t == RParen {
      var status, found := b.PutRParen();
      if status != Success || !found {
        return Stop(Step(status, b.State()), i + 1);
      }
      return Continue(true, b.State());
    } else if t == LBracket {
      if last {
        var status := b.PutOperator(OpSubscript);
        return Stop(Step(if status != Success then status else Failure(NotImplemented), b.State()), i);
      }
      return Stop(Step(Failure(NotImplemented), b.State()), i);
    } else if t == LBrace {
      return Stop(Step(Failure(if last then UnexpectedToken else NotImplemented), b.State()), i);
    } else if t == Comma {
      var status, found := b.PutRParen();
      if status != Success || !found {
        return Stop(Step(status, b.State()), i);
      }
      var node := b.PopOperand();
      if node.None? {
        return Stop(Step(status, b.State()), i);
      }
      return Stop(Step(Failure(NotImplemented), b.State()), i + 1);
    } else if t == KwNil {
      b.PutOperand(Nil);
      return Continue(true, b.State());
    } else if t == KwTrue || t == KwFalse {
      b.PutOperand(Bool(t == KwTrue));
      return Continue(true, b.State());
    } else if t == Identifier {
      b.PutOperand(Name(toks[i].value.text));
      return Continue(true, b.State());
    }
    return Stop(Step(Success, b.State()), i);
  }

  /** `parse_expression`: feed the tokens to a fresh builder until one ends the expression, then finish. */
  method ParseExpression(toks: seq<Lexer.Tok>, fixed: bool) returns (r: Parsed)
    requires FromLexer(toks)
    ensures r == ParseSpec(toks, fixed)
  {
    var b := new ExprBuilder();
    var i := 0;
    var last := false;
    while i < |toks|
      invariant i <= |toks| && b.Valid()
      invariant Build(toks, i, last, b.State()) == Build(toks, 0, false, Stacks([], []))
      decreases |toks| - i
    {
      var m := Feed(b, toks, i, last);
      if m.Stop? {
        if m.step.status != Success {
          return Parsed(m.step.status, None, m.next);
        }
        i := m.next;
        break;
      }
      last := m.last;
      i := i + 1;
    }
    var status, node := b.GenerateExpr(fixed);
    return Parsed(status, node, i);
  }

  // ----- single steps -----

  /** Reducing a binary operator's entry whose operands combine replaces the two top operands by the node. */
  lemma ReduceBinary(ops: seq<int>, pre: seq<Node>, op: TokenType, a: Node, b: Node, node: Node)
    requires IsBinOp(op) && Combine(op, a, b) == Ok(node)
    ensures Reduce(Stacks(ops + [Entry(op)], pre + [a, b])) == Step(Success, Stacks(ops, pre + [node]))
  {
    var s := Stacks(ops + [Entry(op)], pre + [a, b]);
    assert s.ops[..|s.ops| - 1] == ops;
    assert s.vals[..|s.vals| - 2] == pre;
  }

  /** Reducing a binary operator's entry whose operands do not combine fails and pops both. */
  lemma ReduceRejected(ops: seq<int>, pre: seq<Node>, op: TokenType, a: Node, b: Node)
    requires IsBinOp(op) && Combine(op, a, b).Err?
    ensures Reduce(Stacks(ops + [Entry(op)], pre + [a, b])) == Step(Failure(Combine(op, a, b).error), Stacks(ops, pre))
  {
    var s := Stacks(ops + [Entry(op)], pre + [a, b]);
    assert s.ops[..|s.ops| - 1] == ops;
    assert s.vals[..|s.vals| - 2] == pre;
  }

  /** Reducing a unary operator's entry wraps the top operand. */
  lemma ReduceUnary(ops: seq<int>, pre: seq<Node>, op: TokenType, a: Node)
    requires IsUnOp(op)
    ensures Reduce(Stacks(ops + [Entry(op)], pre + [a])) == Step(Success, Stacks(ops, pre + [Unary(op, a)]))
  {
    var s := Stacks(ops + [Entry(op)], pre + [a]);
    assert s.ops[..|s.ops| - 1] == ops;
    assert s.vals[..|s.vals| - 1] == pre;
  }

  /** An operator whose threshold is below the top entry's magnitude is pushed without reducing. */
  lemma PushOnto(s: Stacks, op: TokenType)
    requires Stacked(s.ops) && IsOperator(op)
    requires |s.ops| == 0 || Threshold(op) < PrecOf(s.ops[|s.ops| - 1])
    ensures PushOperator(s, op) == Step(Success, Stacks(s.ops + [Entry(op)], s.vals))
  {
  }

  /** An operator whose threshold reaches the top entry's magnitude first reduces that entry. */
  lemma PushAfterReduce(s: Stacks, op: TokenType, next: Stacks)
    requires Stacked(s.ops) && IsOperator(op) && |s.ops| > 0
    requires PrecOf(s.ops[|s.ops| - 1]) <= Threshold(op) && Reduce(s) == Step(Success, next)
    ensures Stacked(next.ops) && PushOperator(s, op) == PushOperator(next, op)
  {
    LParenEntryParts();
  }

  /** Finishing reduces the top entry first. */
  lemma FinishAfterReduce(s: Stacks, fixed: bool, next: Stacks)
    requires WellFormed(s.ops) && |s.ops| > 0 && TypeOf(s.ops[|s.ops| - 1]) != LParen as int
    requires Reduce(s) == Step(Success, next)
    ensures WellFormed(next.ops) && Finish(s, fixed) == Finish(next, fixed)
  {
  }

  /** A literal or a name is pushed as an operand. */
  lemma OperandStep(toks: seq<Lexer.Tok>, i: nat, last: bool, s: Stacks, node: Node)
    requires i < |toks| && FromLexer(toks) && Stacked(s.ops)
    requires (IsLiteral(toks[i].kind) && node == Constant(toks[i].value)) ||
             (toks[i].kind == Identifier && node == Name(toks[i].value.text))
    ensures Build(toks, i, last, s) == Build(toks, i + 1, true, Stacks(s.ops, s.vals + [node]))
  {
  }

  /** An operator token is put with `put_operator`, after the unary rewrite. */
  lemma OperatorStep(toks: seq<Lexer.Tok>, i: nat, last: bool, s: Stacks, next: Stacks)
    requires i < |toks| && FromLexer(toks) && Stacked(s.ops) && IsOperator(toks[i].kind)
    requires PushOperator(s, Operator(toks[i].kind, last)) == Step(Success, next)
    ensures Stacked(next.ops)
    ensures Build(toks, i, last, s) == Build(toks, i + 1, false, next)
  {
  }

  /** A '(' in operand position, not followed by ')', pushes the '(' entry. */
  lemma LParenStep(toks: seq<Lexer.Tok>, i: nat, s: Stacks)
    requires i + 1 < |toks| && FromLexer(toks) && Stacked(s.ops)
    requires toks[i].kind == LParen && toks[i + 1].kind != RParen
    ensures Stacked(s.ops + [LParenEntry])
    ensures Build(toks, i, false, s) == Build(toks, i + 1, false, Stacks(s.ops + [LParenEntry], s.vals))
  {
    LParenEntryParts();
  }

  /** A ')' that finds its '(' closes it and stands for an operand. */
  lemma RParenStep(toks: seq<Lexer.Tok>, i: nat, last: bool, s: Stacks, next: Stacks)
    requires i < |toks| && FromLexer(toks) && Stacked(s.ops) && toks[i].kind == RParen
    requires CloseParen(s) == (Step(Success, next), true)
    ensures Stacked(next.ops)
    ensures Build(toks, i, last, s) == Build(toks, i + 1, true, next)
  {
  }

  /** An end-of-statement token ends the expression without being consumed. */
  lemma EndStep(toks: seq<Lexer.Tok>, i: nat, last: bool, s: Stacks)
    requires i < |toks| && FromLexer(toks) && Stacked(s.ops) && toks[i].kind == Eos
    ensures Build(toks, i, last, s) == (Step(Success, s), i)
  {
  }

  // ----- precedence and associativity -----

  /** The precedence relations the lemmas below rely on. */
  lemma PrecedenceFacts()
    ensures Threshold(OpMul) < Magnitude(OpAdd) && Magnitude(OpMul) <= Threshold(OpAdd)
    ensures Magnitude(OpSub) <= Threshold(OpSub) && Threshold(OpEql) < Magnitude(OpEql)
    ensures Threshold(OpAdd) < PrecOf(LParenEntry)
  {
    LParenEntryParts();
  }

  /** In "x + y * z" the '*' goes on top of the '+', so finishing makes `x + (y * z)`. */
  lemma MulBindsTighter(x: Node, y: Node, z: Node, fixed: bool)
    ensures PushOperator(Stacks([Entry(OpAdd)], [x, y]), OpMul) ==
            Step(Success, Stacks([Entry(OpAdd), Entry(OpMul)], [x, y]))
    ensures Finish(Stacks([Entry(OpAdd), Entry(OpMul)], [x, y, z]), fixed) ==
            (Success, Some(Binary(OpAdd, x, Binary(OpMul, y, z))))
  {
    var add, mul := Entry(OpAdd), Entry(OpMul);
    PrecedenceFacts();
    PushOnto(Stacks([add], [x, y]), OpMul);
    assert [add] + [mul] == [add, mul];
    assert [x] + [y, z] == [x, y, z];
    ReduceBinary([add], [x], OpMul, y, z, Binary(OpMul, y, z));
    FinishAfterReduce(Stacks([add, mul], [x, y, z]), fixed, Stacks([add], [x] + [Binary(OpMul, y, z)]));
    assert [] + [add] == [add] && [] + [x, Binary(OpMul, y, z)] == [x] + [Binary(OpMul, y, z)];
    ReduceBinary([], [], OpAdd, x, Binary(OpMul, y, z), Binary(OpAdd, x, Binary(OpMul, y, z)));
    FinishAfterReduce(Stacks([add], [x, Binary(OpMul, y, z)]), fixed, Stacks([], [] + [Binary(OpAdd, x, Binary(OpMul, y, z))]));
  }

  /** In "x * y + z" the '+' first reduces the '*', so the product is its left operand. */
  lemma AddAfterMul(x: Node, y: Node)
    ensures PushOperator(Stacks([Entry(OpMul)], [x, y]), OpAdd) ==
            Step(Success, Stacks([Entry(OpAdd)], [Binary(OpMul, x, y)]))
  {
    var mul := Entry(OpMul);
    PrecedenceFacts();
    assert [] + [mul] == [mul] && [] + [x, y] == [x, y];
    ReduceBinary([], [], OpMul, x, y, Binary(OpMul, x, y));
    PushAfterReduce(Stacks([mul], [x, y]), OpAdd, Stacks([], [] + [Binary(OpMul, x, y)]));
    PushOnto(Stacks([], [Binary(OpMul, x, y)]), OpAdd);
    assert [] + [Entry(OpAdd)] == [Entry(OpAdd)];
  }

  /** In "x - y - z" the second '-' first reduces the first: subtraction groups left to right. */
  lemma SubtractionLeftToRight(x: Node, y: Node)
    ensures PushOperator(Stacks([Entry(OpSub)], [x, y]), OpSub) ==
            Step(Success, Stacks([Entry(OpSub)], [Binary(OpSub, x, y)]))
  {
    var sub := Entry(OpSub);
    PrecedenceFacts();
    assert [] + [sub] == [sub] && [] + [x, y] == [x, y];
    ReduceBinary([], [], OpSub, x, y, Binary(OpSub, x, y));
    PushAfterReduce(Stacks([sub], [x, y]), OpSub, Stacks([], [] + [Binary(OpSub, x, y)]));
    PushOnto(Stacks([], [Binary(OpSub, x, y)]), OpSub);
  }

  /** In "a = b = c" the second '=' stays above the first: assignment groups right to left. */
  lemma AssignmentRightToLeft(a: Node, b: Node, c: Node, fixed: bool)
    ensures PushOperator(Stacks([Entry(OpEql)], [a, b]), OpEql) ==
            Step(Success, Stacks([Entry(OpEql), Entry(OpEql)], [a, b]))
    ensures Finish(Stacks([Entry(OpEql), Entry(OpEql)], [a, b, c]), fixed) ==
            (Success, Some(Assign(a, Assign(b, c))))
  {
    var eql := Entry(OpEql);
    PrecedenceFacts();
    PushOnto(Stacks([eql], [a, b]), OpEql);
    assert [eql] + [eql] == [eql, eql];
    assert [a] + [b, c] == [a, b, c];
    ReduceBinary([eql], [a], OpEql, b, c, Assign(b, c));
    FinishAfterReduce(Stacks([eql, eql], [a, b, c]), fixed, Stacks([eql], [a] + [Assign(b, c)]));
    assert [] + [eql] == [eql] && [] + [a, Assign(b, c)] == [a] + [Assign(b, c)];
    ReduceBinary([], [], OpEql, a, Assign(b, c), Assign(a, Assign(b, c)));
    FinishAfterReduce(Stacks([eql], [a, Assign(b, c)]), fixed, Stacks([], [] + [Assign(a, Assign(b, c))]));
  }

  /** In "(x + y)" the ')' reduces the '+' and pops the '(', leaving the sum as one operand. */
  lemma ParenthesesGroup(x: Node, y: Node)
    ensures PushOperator(Stacks([LParenEntry], [x]), OpAdd) ==
            Step(Success, Stacks([LParenEntry, Entry(OpAdd)], [x]))
    ensures CloseParen(Stacks([LParenEntry, Entry(OpAdd)], [x, y])) ==
            (Step(Success, Stacks([], [Binary(OpAdd, x, y)])), true)
  {
    var add := Entry(OpAdd);
    PrecedenceFacts();
    LParenEntryParts();
    assert Stacked([LParenEntry]);
    PushOnto(Stacks([LParenEntry], [x]), OpAdd);
    assert [LParenEntry] + [add] == [LParenEntry, add];
    assert [] + [x, y] == [x, y];
    ReduceBinary([LParenEntry], [], OpAdd, x, y, Binary(OpAdd, x, y));
    assert [LParenEntry][..0] == [] && [] + [Binary(OpAdd, x, y)] == [Binary(OpAdd, x, y)];
    assert CloseParen(Stacks([LParenEntry], [Binary(OpAdd, x, y)])) == (Step(Success, Stacks([], [Binary(OpAdd, x, y)])), true);
  }

  /** A leading '-' is negation: it is pushed as NEG and wraps the operand that follows. */
  lemma LeadingMinus(x: Node, fixed: bool)
    ensures Operator(OpSub, false) == OpNeg
    ensures PushOperator(Stacks([], []), OpNeg) == Step(Success, Stacks([Entry(OpNeg)], []))
    ensures Finish(Stacks([Entry(OpNeg)], [x]), fixed) == (Success, Some(Unary(OpNeg, x)))
  {
    PushOnto(Stacks([], []), OpNeg);
    assert [] + [Entry(OpNeg)] == [Entry(OpNeg)] && [] + [x] == [x];
    ReduceUnary([], [], OpNeg, x);
    FinishAfterReduce(Stacks([Entry(OpNeg)], [x]), fixed, Stacks([], [] + [Unary(OpNeg, x)]));
  }

  /** "x +" with nothing after it: finishing reports too few operands for '+'. */
  lemma MissingOperand(x: Node, fixed: bool)
    ensures Finish(Stacks([Entry(OpAdd)], [x]), fixed) == (Failure(TooFewOperands(OpAdd)), None)
  {
  }

  /** "x . n" makes a field access when the right operand is a name, and is rejected otherwise. */
  lemma FieldNeedsName(x: Node, y: Node, fixed: bool)
    ensures y.Name? ==> Finish(Stacks([Entry(OpPeriod)], [x, y]), fixed) == (Success, Some(Field(x, y.id)))
    ensures !y.Name? ==> Finish(Stacks([Entry(OpPeriod)], [x, y]), fixed) == (Failure(UnexpectedNode(y)), None)
  {
    var dot := Entry(OpPeriod);
    assert [] + [dot] == [dot] && [] + [x, y] == [x, y];
    if y.Name? {
      ReduceBinary([], [], OpPeriod, x, y, Field(x, y.id));
      FinishAfterReduce(Stacks([dot], [x, y]), fixed, Stacks([], [] + [Field(x, y.id)]));
    } else {
      ReduceRejected([], [], OpPeriod, x, y);
    }
  }
}
