/**
 * The substring search of the interactive shell (modules/repl.c): `_memstr`
 * finds a NUL-free needle in a byte buffer, and `read_need_next_line` uses
 * it to decide whether a syntax error only means that the input ended too
 * early, so that another line should be read.  `ast_node_is_expr` decides
 * whether the last statement read is an expression whose value is shown.
 */
module Repl {
  import opened Wrappers
  import opened Strutil
  import StringObj
  import Token
  import Parser

  /** `n` occurs in `h` starting at index `i`. */
  predicate OccursAt(h: seq<Byte>, n: seq<Byte>, i: nat) {
    i + |n| <= |h| && h[i..i + |n|] == n
  }

  /** `memchr(h + from, c, |h| - from)`: the first index at or after `from` holding `c`. */
  function MemChr(h: seq<Byte>, from: nat, c: Byte): (r: Option<nat>)
    requires from <= |h|
    ensures r.Some? ==> from <= r.value < |h| && h[r.value] == c
    ensures r.Some? ==> forall k :: from <= k < r.value ==> h[k] != c
    ensures r.None? ==> forall k :: from <= k < |h| ==> h[k] != c
    decreases |h| - from
  {
    if from == |h| then None
    else if h[from] == c then Some(from)
    else MemChr(h, from + 1, c)
  }

  /**
   * `_memstr(mem, len, str)`: the index of the leftmost occurrence of the
   * needle in the haystack, or None when there is none, the needle is empty
   * or the needle is longer than the haystack.  The search jumps with
   * `memchr` to the next candidate first byte and compares from there.
   */
  method MemStr(h: seq<Byte>, n: seq<Byte>) returns (r: Option<nat>)
    ensures |n| == 0 || |n| > |h| ==> r == None
    ensures r.Some? ==> OccursAt(h, n, r.value)
    ensures r.Some? ==> forall j :: 0 <= j < r.value ==> !OccursAt(h, n, j)
    ensures r.None? && |n| > 0 ==> forall j :: 0 <= j <= |h| ==> !OccursAt(h, n, j)
  {
    if |n| > |h| || |n| == 0 {
      return None;
    }
    var pos := 0;
    while pos < |h|
      invariant pos <= |h|
      invariant forall j :: 0 <= j < pos ==> !OccursAt(h, n, j)
      decreases |h| - pos
    {
      var p := MemChr(h, pos, n[0]);
      if p.None? {
        NoFirstByte(h, n, pos);
        break;
      }
      var at := p.value;
      if |h| - at < |n| {
        NoRoom(h, n, pos, at);
        return None;
      }
      if h[at..at + |n|] == n {
        return Some(at);
      }
      SkipCandidate(h, n, pos, at);
      pos := at + 1;
    }
    return None;
  }

  /** An occurrence starts with the needle's first byte. */
  lemma OccursFirst(h: seq<Byte>, n: seq<Byte>, j: nat)
    requires 0 < |n|
    ensures OccursAt(h, n, j) ==> j < |h| && h[j] == n[0]
  {
    if OccursAt(h, n, j) {
      assert h[j..j + |n|][0] == h[j];
    }
  }

  /** No index from `pos` on holds the needle's first byte, so none starts an occurrence. */
  lemma NoFirstByte(h: seq<Byte>, n: seq<Byte>, pos: nat)
    requires 0 < |n| && pos <= |h|
    requires forall k :: pos <= k < |h| ==> h[k] != n[0]
    ensures forall j :: pos <= j <= |h| ==> !OccursAt(h, n, j)
  {
    forall j | pos <= j <= |h|
      ensures !OccursAt(h, n, j)
    {
      OccursFirst(h, n, j);
    }
  }

  /** Before `at` the first byte is missing, and from `at` on the needle no longer fits. */
  lemma NoRoom(h: seq<Byte>, n: seq<Byte>, pos: nat, at: nat)
    requires 0 < |n| && pos <= at < |h| && |h| - at < |n|
    requires forall k :: pos <= k < at ==> h[k] != n[0]
    ensures forall j :: pos <= j <= |h| ==> !OccursAt(h, n, j)
  {
    forall j | pos <= j <= |h|
      ensures !OccursAt(h, n, j)
    {
      OccursFirst(h, n, j);
    }
  }

  /** A failed comparison at `at` and a missing first byte before it rule out `pos..at`. */
  lemma SkipCandidate(h: seq<Byte>, n: seq<Byte>, pos: nat, at: nat)
    requires 0 < |n| && pos <= at && at + |n| <= |h|
    requires forall k :: pos <= k < at ==> h[k] != n[0]
    requires h[at..at + |n|] != n
    ensures forall j :: pos <= j < at + 1 ==> !OccursAt(h, n, j)
  {
    forall j | pos <= j < at + 1
      ensures !OccursAt(h, n, j)
    {
      OccursFirst(h, n, j);
    }
  }

  /** The message fragment "before `end-of-source'", as bytes. */
  const BeforeEnd: seq<Byte> := [
    0x62, 0x65, 0x66, 0x6f, 0x72, 0x65, 0x20, 0x60, 0x65, 0x6e, 0x64, 0x2d,
    0x6f, 0x66, 0x2d, 0x73, 0x6f, 0x75, 0x72, 0x63, 0x65, 0x27]

  /** The message fragment "unexpected `end-of-source'", as bytes. */
  const UnexpectedEnd: seq<Byte> := [
    0x75, 0x6e, 0x65, 0x78, 0x70, 0x65, 0x63, 0x74, 0x65, 0x64, 0x20, 0x60,
    0x65, 0x6e, 0x64, 0x2d, 0x6f, 0x66, 0x2d, 0x73, 0x6f, 0x75, 0x72, 0x63,
    0x65, 0x27]

  /** `n` occurs somewhere in `h`. */
  predicate Contains(h: seq<Byte>, n: seq<Byte>) {
    exists j :: 0 <= j <= |h| && OccursAt(h, n, j)
  }

  /** The message reports that the source ended too early. */
  predicate EndOfSource(msg: seq<Byte>) {
    Contains(msg, BeforeEnd) || Contains(msg, UnexpectedEnd)
  }

  /** The thrown value, as far as the check looks at it: an exception whose `what` may be a string. */
  datatype Thrown = NotException | Exception(what: Option<StringObj.Str>)

  /** The size of the local buffer the message is converted into. */
  const MessageBuffer: nat := 128

  /**
   * `read_need_next_line`: true exactly when the thrown value is an
   * exception whose `what` is a string, whose UTF-8 text fits in the
   * 128-byte buffer and contains one of the two end-of-source fragments.
   */
  method NeedNextLine(err: Thrown) returns (b: bool)
    requires err.Exception? && err.what.Some? ==>
               StringObj.Valid(err.what.value) && StringObj.Encodes(err.what.value)
    ensures b <==> err.Exception? && err.what.Some? &&
                   |Encode(err.what.value.chars)| <= MessageBuffer &&
                   EndOfSource(Encode(err.what.value.chars))
  {
    if !err.Exception? || !err.what.Some? {
      return false;
    }
    var fits, msg := MessageText(err.what.value);
    if !fits {
      return false;
    }
    assert |BeforeEnd| > 0 && |UnexpectedEnd| > 0;
    b := Search(msg, BeforeEnd);
    if !b {
      b := Search(msg, UnexpectedEnd);
    }
  }

  /** `zis_string_obj_to_u8str` into the local 128-byte buffer: the UTF-8 text when it fits. */
  method MessageText(s: StringObj.Str) returns (fits: bool, msg: seq<Byte>)
    requires StringObj.Valid(s) && StringObj.Encodes(s)
    ensures fits <==> |Encode(s.chars)| <= MessageBuffer
    ensures fits ==> msg == Encode(s.chars)
  {
    var buf := new Byte[MessageBuffer];
    var size := StringObj.ToU8Str(s, buf);
    fits := size != -1;
    msg := if fits then buf[..size] else [];
  }

  /** `_memstr(...) != NULL` for a non-empty needle: whether it occurs at all. */
  method Search(h: seq<Byte>, n: seq<Byte>) returns (b: bool)
    requires |n| > 0
    ensures b <==> Contains(h, n)
  {
    var r := MemStr(h, n);
    b := r.Some?;
  }

  /* ----- expression nodes ------------------------------------------------- */

  /**
   * The kinds of AST node (`enum zis_ast_node_type`) that
   * `ast_node_is_expr` names, the module node, and the statement kinds,
   * which are one `Statement` here.
   */
  datatype AstKind =
    | NilKind | BoolKind | ConstantKind | NameKind
    | PosKind | NegKind | BitNotKind | NotKind
    | AddKind | SubKind | MulKind | DivKind | RemKind | ShlKind | ShrKind
    | BitAndKind | BitOrKind | BitXorKind | AssignKind
    | EqKind | NeKind | LtKind | LeKind | GtKind | GeKind | CmpKind
    | AndKind | OrKind | SubscriptKind | FieldKind | CallKind | SendKind
    | TupleKind | ArrayKind | MapKind
    | ModuleKind | Statement(name: string)

  /** `ast_node_is_expr`: the listed kinds are expressions, the module and the statements are not. */
  function IsExpr(k: AstKind): (b: bool)
    ensures b <==> !k.ModuleKind? && !k.Statement?
  {
    k.NilKind? || k.BoolKind? || k.ConstantKind? || k.NameKind? ||
    k.PosKind? || k.NegKind? || k.BitNotKind? || k.NotKind? ||
    k.AddKind? || k.SubKind? || k.MulKind? || k.DivKind? || k.RemKind? ||
    k.ShlKind? || k.ShrKind? || k.BitAndKind? || k.BitOrKind? || k.BitXorKind? ||
    k.AssignKind? || k.EqKind? || k.NeKind? || k.LtKind? || k.LeKind? ||
    k.GtKind? || k.GeKind? || k.CmpKind? || k.AndKind? || k.OrKind? ||
    k.SubscriptKind? || k.FieldKind? || k.CallKind? || k.SendKind? ||
    k.TupleKind? || k.ArrayKind? || k.MapKind?
  }

  /** The operator tokens the parser turns into a node of their own kind, from `+` to `[]`, `=` excepted. */
  predicate NodeOperator(op: Token.TokenType) {
    Token.OpAdd <= op <= Token.OpSubscript && op != Token.OpEql
  }

  /**
   * The kind of a node the expression builder makes: a unary operator's
   * node kind follows `Pos` in the order of the tokens from `OP_POS`, a
   * binary one's follows `Add` in the order from `OP_ADD`.
   */
  function KindOf(n: Parser.Node): AstKind
    requires n.Unary? ==> Token.IsUnOp(n.op)
    requires n.Binary? ==> NodeOperator(n.op)
  {
    match n
    case Constant(_) => ConstantKind
    case Name(_) => NameKind
    case Nil => NilKind
    case Bool(_) => BoolKind
    case Unary(op, _) => [PosKind, NegKind, BitNotKind, NotKind][op as int]
    case Binary(op, _, _) =>
      [AddKind, SubKind, MulKind, DivKind, RemKind, ShlKind, ShrKind, BitAndKind,
       BitOrKind, BitXorKind, AssignKind, EqKind, NeKind, LtKind, LeKind, GtKind,
       GeKind, AndKind, OrKind, SubscriptKind][(op - Token.OpAdd) as int]
    case Assign(_, _) => AssignKind
    case Field(_, _) => FieldKind
    case Send(_, _, _) => SendKind
    case Call(_, _) => CallKind
  }

  /** A node the builder can make: every operator node, down the tree, has an operator of its shape. */
  predicate Built(n: Parser.Node)
    decreases n
  {
    match n
    case Constant(_) => true
    case Name(_) => true
    case Nil => true
    case Bool(_) => true
    case Unary(op, x) => Token.IsUnOp(op) && Built(x)
    case Binary(op, x, y) => NodeOperator(op) && Built(x) && Built(y)
    case Assign(x, y) => Built(x) && Built(y)
    case Field(x, _) => Built(x)
    case Send(tgt, _, args) =>
      (tgt.Target? ==> Built(tgt.node)) && forall i :: 0 <= i < |args| ==> Built(args[i])
    case Call(f, args) => Built(f) && forall i :: 0 <= i < |args| ==> Built(args[i])
  }

  /**
   * Every node the builder makes is of a kind `ast_node_is_expr` accepts,
   * and it is an assignment node exactly when it was built as one ("=" and
   * "op=", never a binary node).
   */
  lemma BuiltIsExpr(n: Parser.Node)
    requires Built(n)
    ensures IsExpr(KindOf(n))
    ensures KindOf(n) == AssignKind <==> n.Assign?
  {
  }

  /** Combining two built operands gives a built node. */
  lemma CombineBuilt(op: Token.TokenType, lhs: Parser.Node, rhs: Parser.Node)
    requires Token.IsBinOp(op) && Built(lhs) && Built(rhs)
    ensures Parser.Combine(op, lhs, rhs).Ok? ==> Built(Parser.Combine(op, lhs, rhs).value)
  {
    if Token.IsEqlOp(op) {
      assert NodeOperator(op - (Token.OpAddEql - Token.OpAdd));
    }
  }

  /**
   * Reducing the top operator keeps every operand on the stack built, so
   * the expression `parse_expression` returns is one the REPL shows.
   */
  lemma ReduceBuilt(s: Parser.Stacks)
    requires |s.ops| > 0 && Parser.IsEntry(s.ops[|s.ops| - 1])
    requires forall i :: 0 <= i < |s.vals| ==> Built(s.vals[i])
    ensures var r := Parser.Reduce(s);
            forall i :: 0 <= i < |r.st.vals| ==> Built(r.st.vals[i])
  {
    var n := |s.vals|;
    var t := Parser.TypeOf(s.ops[|s.ops| - 1]);
    if t != Token.LParen as int && n >= Parser.Arity(t as Token.TokenType) && !Token.IsUnOp(t as Token.TokenType) {
      CombineBuilt(t as Token.TokenType, s.vals[n - 2], s.vals[n - 1]);
    }
  }
}
