/**
 * Lexical token types (core/token.h, core/token.c).  A token type is the
 * value of `enum zis_token_type`: the unary operators, the binary operators,
 * the special operators, the keywords, the literal kinds, identifiers and the
 * two end markers, numbered from 0 in that order.  The lexer also produces
 * "**" and "<=>", which have no entry in the enumeration; they get the two
 * values after `Eof` here.
 */
module Token {
  import opened Wrappers

  newtype TokenType = t: int | 0 <= t < 75

  // unary operators
  const OpPos: TokenType := 0
  const OpNeg: TokenType := 1
  const OpBitNot: TokenType := 2
  const OpNot: TokenType := 3
  // binary operators
  const OpAdd: TokenType := 4
  const OpSub: TokenType := 5
  const OpMul: TokenType := 6
  const OpDiv: TokenType := 7
  const OpRem: TokenType := 8
  const OpShl: TokenType := 9
  const OpShr: TokenType := 10
  const OpBitAnd: TokenType := 11
  const OpBitOr: TokenType := 12
  const OpBitXor: TokenType := 13
  const OpEql: TokenType := 14
  const OpEq: TokenType := 15
  const OpNe: TokenType := 16
  const OpLt: TokenType := 17
  const OpLe: TokenType := 18
  const OpGt: TokenType := 19
  const OpGe: TokenType := 20
  const OpAnd: TokenType := 21
  const OpOr: TokenType := 22
  const OpSubscript: TokenType := 23
  const OpPeriod: TokenType := 24
  const OpAddEql: TokenType := 25
  const OpSubEql: TokenType := 26
  const OpMulEql: TokenType := 27
  const OpDivEql: TokenType := 28
  const OpRemEql: TokenType := 29
  const OpShlEql: TokenType := 30
  const OpShrEql: TokenType := 31
  const OpBitAndEql: TokenType := 32
  const OpBitOrEql: TokenType := 33
  const OpBitXorEql: TokenType := 34
  const OpColon: TokenType := 35
  const OpCall: TokenType := 36
  // special operators
  const At: TokenType := 37
  const Question: TokenType := 38
  const Dollar: TokenType := 39
  const DotDot: TokenType := 40
  const Ellipsis: TokenType := 41
  const LArrow: TokenType := 42
  const RArrow: TokenType := 43
  const Comma: TokenType := 44
  const LParen: TokenType := 45
  const RParen: TokenType := 46
  const LBracket: TokenType := 47
  const RBracket: TokenType := 48
  const LBrace: TokenType := 49
  const RBrace: TokenType := 50
  // keywords (the ones between are reached through `KeywordTexts`)
  const KwNil: TokenType := 51
  const KwTrue: TokenType := 52
  const KwFalse: TokenType := 53
  const KwEnd: TokenType := 65
  // literals, identifiers and end markers
  const LitInt: TokenType := 66
  const LitFloat: TokenType := 67
  const LitString: TokenType := 68
  const LitSymbol: TokenType := 69
  const Identifier: TokenType := 70
  const Eos: TokenType := 71
  const Eof: TokenType := 72
  // produced by the lexer, missing from the enumeration
  const OpPow: TokenType := 73
  const OpCmp: TokenType := 74

  /** `zis_token_type_is_un_op`: POS to NOT. */
  predicate IsUnOp(t: TokenType) {
    OpPos <= t <= OpNot
  }

  /** `zis_token_type_is_bin_op`: ADD to CALL. */
  predicate IsBinOp(t: TokenType) {
    OpAdd <= t <= OpCall
  }

  /** `zis_token_type_is_operator`: POS to CALL. */
  predicate IsOperator(t: TokenType) {
    OpPos <= t <= OpCall
  }

  /** `zis_token_type_is_keyword`: NIL to END. */
  predicate IsKeyword(t: TokenType) {
    KwNil <= t <= KwEnd
  }

  /** `zis_token_type_is_literal`: INT to SYMBOL. */
  predicate IsLiteral(t: TokenType) {
    LitInt <= t <= LitSymbol
  }

  /** A compound assignment "op=", ADD_EQL to BIT_XOR_EQL. */
  predicate IsEqlOp(t: TokenType) {
    OpAddEql <= t <= OpBitXorEql
  }

  /**
   * `_zis_token_operator_precedences`: the precedence column of the operator
   * lists, indexed by token type.
   */
  const Precedences: seq<int> := [
    -3, -3, -3, -3,
    5, 5, 4, 4, 4, 6, 6, 10, 12, 11, -15, 9, 9, 8, 8, 8, 8, 13, 14, 2, 1,
    -15, -15, -15, -15, -15, -15, -15, -15, -15, -15, 3, 2]

  /**
   * `zis_token_operator_precedence`.  A negative value means right-to-left
   * associativity; a smaller magnitude binds tighter.
   */
  function Precedence(t: TokenType): int
    requires IsOperator(t)
  {
    Precedences[t]
  }

  /** Every precedence is non-zero and its magnitude is at most 15. */
  lemma PrecedenceRange(t: TokenType)
    requires IsOperator(t)
    ensures Precedence(t) != 0 && -15 <= Precedence(t) <= 15
  {
  }

  /** Exactly the unary operators, "=" and the compound assignments associate right to left. */
  lemma RightToLeft(t: TokenType)
    requires IsOperator(t)
    ensures Precedence(t) < 0 <==> IsUnOp(t) || t == OpEql || IsEqlOp(t)
  {
  }

  /** `_zis_token_keyword_texts`, indexed by token type minus NIL. */
  const KeywordTexts: seq<string> := [
    "nil", "true", "false", "func", "struct", "if", "elif", "else",
    "while", "for", "break", "continue", "return", "throw", "end"]

  /** `zis_token_keyword_text`. */
  function KeywordText(t: TokenType): string
    requires IsKeyword(t)
  {
    KeywordTexts[t - KwNil]
  }

  /** The first keyword from NIL + `k` on whose text is `s`. */
  function KeywordFrom(s: string, k: nat): (r: Option<TokenType>)
    requires k <= |KeywordTexts|
    ensures r.Some? ==> IsKeyword(r.value) && KeywordText(r.value) == s
    ensures r.Some? ==> KwNil as int + k <= r.value as int
    decreases |KeywordTexts| - k
  {
    if k == |KeywordTexts| then None
    else if KeywordTexts[k] == s then Some(KwNil + k as TokenType)
    else KeywordFrom(s, k + 1)
  }

  /** The keyword spelled `s`, if any: the inverse of `KeywordText`. */
  function KeywordOf(s: string): (r: Option<TokenType>)
    ensures r.Some? ==> IsKeyword(r.value) && KeywordText(r.value) == s
  {
    KeywordFrom(s, 0)
  }

  /** Every keyword's text is recognised as that keyword, so no two keywords share a text. */
  lemma KeywordTextRoundTrip(t: TokenType)
    requires IsKeyword(t)
    ensures KeywordOf(KeywordText(t)) == Some(t)
  {
    KeywordFromFinds(t, 0);
  }

  /** No two entries of the keyword list are equal. */
  lemma KeywordTextsDistinct(i: nat, j: nat)
    requires i < j < |KeywordTexts|
    ensures KeywordTexts[i] != KeywordTexts[j]
  {
  }

  /** Searching from any position at or before a keyword finds that keyword. */
  lemma {:induction false} KeywordFromFinds(t: TokenType, k: nat)
    requires IsKeyword(t) && k <= (t - KwNil) as nat
    ensures KeywordFrom(KeywordText(t), k) == Some(t)
    decreases (t - KwNil) as nat - k
  {
    if k < (t - KwNil) as nat {
      KeywordTextsDistinct(k, (t - KwNil) as nat);
      KeywordFromFinds(t, k + 1);
    }
  }

  /**
   * The text column of the operator lists, indexed by token type from POS to
   * CALL; SUBSCRIPT and CALL are written "[...]" and "(...)".
   */
  const OperatorTexts: seq<string> := [
    "+", "-", "~", "!",
    "+", "-", "*", "/", "%", "<<", ">>", "&", "|", "^", "=", "==", "!=",
    "<", "<=", ">", ">=", "&&", "||", "[...]", ".",
    "+=", "-=", "*=", "/=", "%=", "<<=", ">>=", "&=", "|=", "^=", ":", "(...)"]

  /** The texts of the special tokens, indexed by token type minus AT. */
  const SpecialTexts: seq<string> := [
    "@", "?", "$", "..", "...", "<-", "->", ",", "(", ")", "[", "]", "{", "}"]

  /** The text of an operator or special token, and of the two the lexer adds. */
  function Spelling(t: TokenType): string
    requires t <= RBrace || t == OpPow || t == OpCmp
  {
    if t == OpPow then "**"
    else if t == OpCmp then "<=>"
    else if t <= OpCall then OperatorTexts[t]
    else SpecialTexts[t - At]
  }

  /** Each compound assignment is spelled as the binary operator 21 places before it, followed by '='. */
  lemma EqlOpSpelling(t: TokenType)
    requires IsEqlOp(t)
    ensures IsBinOp(t - (OpAddEql - OpAdd)) && Spelling(t) == Spelling(t - (OpAddEql - OpAdd)) + "="
  {
  }
}
