/**
 * The lexer (core/lexer.c): escape sequences of string literals, the keyword
 * table, number literals, operators, and the scanner that turns the input
 * characters into tokens one call at a time.
 */
module Lexer {
  import opened Wrappers
  import Numerals
  import IntObj
  import opened Token

  // ----- escape sequences -----

  predicate IsHex(c: char) {
    0 <= Numerals.CharDigit(c) < 16
  }

  predicate IsDecimal(c: char) {
    '0' <= c <= '9'
  }

  predicate AllHex(t: string) {
    forall k :: 0 <= k < |t| ==> IsHex(t[k])
  }

  /** The value of a string of hexadecimal digits. */
  function HexValue(t: string): nat
    requires AllHex(t)
  {
    Numerals.TextValue(t, 16)
  }

  /** The end of the run of hexadecimal digits that starts at `i`. */
  function HexRun(s: string, i: nat): (j: nat)
    requires i <= |s|
    ensures i <= j <= |s|
    decreases |s| - i
  {
    if i < |s| && IsHex(s[i]) then HexRun(s, i + 1) else i
  }

  /** The run holds only digits and stops at the end or at a non-digit. */
  lemma {:induction false} HexRunChars(s: string, i: nat)
    requires i <= |s|
    ensures AllHex(s[i..HexRun(s, i)])
    ensures HexRun(s, i) < |s| ==> !IsHex(s[HexRun(s, i)])
    decreases |s| - i
  {
    if i < |s| && IsHex(s[i]) {
      HexRunChars(s, i + 1);
      assert s[i..HexRun(s, i)] == [s[i]] + s[i + 1..HexRun(s, i)];
    }
  }

  /** A run of digits from `a` that stops at `i` makes `i` the end of the run. */
  lemma {:induction false} HexRunAt(s: string, a: nat, i: nat)
    requires a <= i <= |s| && AllHex(s[a..i])
    requires i == |s| || !IsHex(s[i])
    ensures HexRun(s, a) == i
    decreases i - a
  {
    if a < i {
      assert s[a..i][0] == s[a];
      assert s[a + 1..i] == s[a..i][1..];
      HexRunAt(s, a + 1, i);
    }
  }

  /** A run of digits from `a` through `i` makes the run end after `i`. */
  lemma {:induction false} HexRunPast(s: string, a: nat, i: nat)
    requires a <= i < |s| && AllHex(s[a..i + 1])
    ensures HexRun(s, a) > i
    decreases i - a
  {
    assert s[a..i + 1][0] == s[a];
    if a < i {
      assert s[a + 1..i + 1] == s[a..i + 1][1..];
      HexRunPast(s, a + 1, i);
    }
  }

  /** Appending a digit multiplies the value by 16 and adds the digit. */
  lemma HexValueSnoc(s: string, a: nat, i: nat)
    requires a <= i < |s| && AllHex(s[a..i + 1])
    ensures AllHex(s[a..i]) && HexValue(s[a..i + 1]) == HexValue(s[a..i]) * 16 + Numerals.CharDigit(s[i])
  {
    assert s[a..i + 1][..i - a] == s[a..i];
  }

  /** Dropping trailing digits never increases the value. */
  lemma {:induction false} HexValuePrefix(t: string, k: nat)
    requires AllHex(t) && k <= |t|
    ensures AllHex(t[..k]) && HexValue(t[..k]) <= HexValue(t)
    decreases |t| - k
  {
    if k < |t| {
      var u := t[..|t| - 1];
      assert u[..k] == t[..k];
      HexValuePrefix(u, k);
    } else {
      assert t[..k] == t;
    }
  }

  /** The characters of the single-character escapes and the codes they stand for. */
  function SimpleEscape(c: char): (r: Option<int>)
    ensures r.Some? ==> 0 <= r.value < 0x80
  {
    match c
    case '\'' => Some(0x27)
    case '"' => Some(0x22)
    case '\\' => Some(0x5c)
    case 'a' => Some(0x07)
    case 'b' => Some(0x08)
    case 'f' => Some(0x0c)
    case 'n' => Some(0x0a)
    case 'r' => Some(0x0d)
    case 't' => Some(0x09)
    case 'v' => Some(0x0b)
    case _ => None
  }

  /** A translated escape: the character code and the offset just past the escape. */
  datatype Escape = Escape(code: int, end: nat)

  /** The bound `_lit_str_esc_trans` puts on a `\u{...}` value. */
  const AsWrittenLimit: nat := 0x10fff

  /** The largest Unicode code point. */
  const UnicodeMax: nat := 0x10FFFF

  /**
   * The escape that starts the window `s[..n]` (the text after a
   * backslash up to the end of the literal; `s[n]` is the character just
   * after it): a single-character escape; `x` with a decimal and a
   * hexadecimal digit below 0x80; or `u{`, hexadecimal digits, `}` inside
   * the window with a value at most `limit`.  When `allowEmpty` holds, `u{}`
   * stands for code 0.
   */
  function EscapeOf(s: string, n: nat, limit: nat, allowEmpty: bool): (r: Option<Escape>)
    requires n < |s|
  {
    if n == 0 then None
    else if SimpleEscape(s[0]).Some? then Some(Escape(SimpleEscape(s[0]).value, 1))
    else if s[0] == 'x' then
      if n >= 3 && IsDecimal(s[1]) && IsHex(s[2]) && HexValue(s[1..3]) < 0x80
      then Some(Escape(HexValue(s[1..3]), 3))
      else None
    else if s[0] == 'u' && n >= 4 && s[1] == '{' then Braced(s, n, limit, allowEmpty)
    else None
  }

  /** The `u{...}` part of `EscapeOf`: the digits from index 2 must be closed by '}' inside the window. */
  function Braced(s: string, n: nat, limit: nat, allowEmpty: bool): (r: Option<Escape>)
    requires 2 <= n < |s|
  {
    var j := HexRun(s, 2);
    HexRunChars(s, 2);
    if j <= n && s[j] == '}' && (allowEmpty || j > 2) && HexValue(s[2..j]) <= limit
    then Some(Escape(HexValue(s[2..j]), j + 1))
    else None
  }

  /** Digits from 2 to `i` closed by '}' at `i` give their value, when it is within the limit. */
  lemma BracedClose(s: string, n: nat, i: nat, limit: nat)
    requires 2 <= i <= n < |s| && AllHex(s[2..i]) && s[i] == '}' && HexValue(s[2..i]) <= limit
    ensures Braced(s, n, limit, true) == Some(Escape(HexValue(s[2..i]), i + 1))
  {
    HexRunAt(s, 2, i);
  }

  /** Digits from 2 to `i` followed by neither '}' nor a digit inside the window give nothing. */
  lemma BracedStop(s: string, n: nat, i: nat, limit: nat)
    requires 2 <= i <= n < |s| && AllHex(s[2..i]) && s[i] != '}' && (i >= n || !IsHex(s[i]))
    ensures Braced(s, n, limit, true) == None
  {
    if IsHex(s[i]) {
      assert s[2..i + 1] == s[2..i] + [s[i]];
      HexRunPast(s, 2, i);
    } else {
      HexRunAt(s, 2, i);
    }
  }

  /** Digits from 2 through `i` whose value already exceeds the limit give nothing. */
  lemma BracedTooLarge(s: string, n: nat, i: nat, limit: nat)
    requires 2 <= i < n < |s| && AllHex(s[2..i + 1]) && HexValue(s[2..i + 1]) > limit
    ensures Braced(s, n, limit, true) == None
  {
    HexRunPast(s, 2, i);
    HexRunChars(s, 2);
    var j := HexRun(s, 2);
    assert s[2..j][..i + 1 - 2] == s[2..i + 1];
    HexValuePrefix(s[2..j], i + 1 - 2);
  }

  /** A successful escape ends inside the window, or one past it only when `s[n]` is '}'. */
  lemma EscapeEnd(s: string, n: nat, limit: nat, allowEmpty: bool)
    requires n < |s|
    ensures var e := EscapeOf(s, n, limit, allowEmpty);
            e.Some? ==> 1 <= e.value.end <= n + 1 && 0 <= e.value.code <= (if limit < 0x80 then 0x80 else limit)
    ensures var e := EscapeOf(s, n, limit, allowEmpty);
            e.Some? && s[n] != '}' ==> e.value.end <= n
  {
  }

  /**
   * `_lit_str_esc_trans`: the escape at the start of the window, or -1 when
   * there is none; `end` is the new value of `*s_end_p`, left at `n` on
   * failure.
   */
  method TranslateEscape(s: string, n: nat) returns (code: int, end: nat)
    requires n < |s|
    ensures var e := EscapeOf(s, n, AsWrittenLimit, true);
            if e.None? then code == -1 && end == n else code == e.value.code && end == e.value.end
  {
    if n == 0 {
      return -1, n;
    }
    var simple := SimpleEscape(s[0]);
    if simple.Some? {
      return simple.value, 1;
    }
    if s[0] == 'x' {
      if n >= 3 && IsDecimal(s[1]) && IsHex(s[2]) {
        var x := Numerals.CharDigit(s[1]) * 16 + Numerals.CharDigit(s[2]);
        assert x == HexValue(s[1..3]) by {
          var t := s[1..3];
          var d := [s[1]];
          assert t[..|t| - 1] == d && d[..|d| - 1] == [];
          assert Numerals.TextValue(d, 16) == Numerals.TextValue([], 16) * 16 + Numerals.CharDigit(s[1]);
        }
        if x < 0x80 {
          return x, 3;
        }
      }
      return -1, n;
    }
    if s[0] == 'u' {
      if n < 4 || s[1] != '{' {
        return -1, n;
      }
      code, end := BracedHex(s, n, AsWrittenLimit);
      return;
    }
    return -1, n;
  }

  /** The `u{...}` loop: digits up to the first '}', the running value kept at most `limit`. */
  method BracedHex(s: string, n: nat, limit: nat) returns (code: int, end: nat)
    requires 4 <= n < |s|
    ensures var e := Braced(s, n, limit, true);
            if e.None? then code == -1 && end == n else code == e.value.code && end == e.value.end
  {
    var result := 0;
    var i := 2;
    while true
      invariant 2 <= i <= n
      invariant AllHex(s[2..i]) && result == HexValue(s[2..i]) && result <= limit
      decreases n - i
    {
      var c := s[i];
      if c == '}' {
        BracedClose(s, n, i, limit);
        return result, i + 1;
      }
      if i >= n || !IsHex(c) {
        BracedStop(s, n, i, limit);
        return -1, n;
      }
      assert s[2..i + 1] == s[2..i] + [c];
      HexValueSnoc(s, 2, i);
      result := result * 16 + Numerals.CharDigit(c);
      if result > limit {
        BracedTooLarge(s, n, i, limit);
        return -1, n;
      }
      i := i + 1;
    }
  }

  /** The `\\x` and unknown escapes of the string-literal tests, read as written. */
  lemma EscapeExamples()
    ensures EscapeOf("x7e1'", 4, AsWrittenLimit, true) == Some(Escape(0x7e, 3))
    ensures EscapeOf("x1'", 2, AsWrittenLimit, true) == None
    ensures EscapeOf("x1g'", 3, AsWrittenLimit, true) == None
    ensures EscapeOf("xff'", 3, AsWrittenLimit, true) == None
    ensures EscapeOf("z'", 1, AsWrittenLimit, true) == None
  {
    var x := "x7e1'";
    HexValueSnoc(x, 1, 2);
    HexValueSnoc(x, 1, 1);
    assert x[1..1] == [];
  }

  /** The `\\u` escapes of the string-literal tests, read as written. */
  lemma BracedExamples()
    ensures EscapeOf("u{4f60}'", 7, AsWrittenLimit, true) == Some(Escape(0x4f60, 7))
    ensures EscapeOf("u{123'", 5, AsWrittenLimit, true) == None
  {
    var u := "u{4f60}'";
    HexRunAt(u, 2, 6);
    HexDigitsValue(u, 6);
    HexDigitsValue(u, 5);
    HexDigitsValue(u, 4);
    HexDigitsValue(u, 3);
    HexRunPast("u{123'", 2, 4);
  }

  /** The value of the digits `s[2..i]`, built up one digit at a time. */
  lemma {:induction false} HexDigitsValue(s: string, i: nat)
    requires 2 <= i <= |s| && AllHex(s[2..i])
    ensures i == 2 ==> HexValue(s[2..i]) == 0
    ensures i > 2 ==> AllHex(s[2..i - 1]) && HexValue(s[2..i]) == HexValue(s[2..i - 1]) * 16 + Numerals.CharDigit(s[i - 1])
  {
    if i > 2 {
      HexValueSnoc(s, 2, i - 1);
    }
  }

  /** As written, the bound 0x10fff rejects U+1F600, which the Unicode bound accepts. */
  lemma AsWrittenRejectsAstral()
    ensures EscapeOf("u{1f600}'", 8, AsWrittenLimit, true) == None
    ensures EscapeOf("u{1f600}'", 8, UnicodeMax, false) == Some(Escape(0x1f600, 8))
  {
    var s := "u{1f600}'";
    HexRunAt(s, 2, 7);
    HexDigitsValue(s, 7);
    HexDigitsValue(s, 6);
    HexDigitsValue(s, 5);
    HexDigitsValue(s, 4);
    HexDigitsValue(s, 3);
  }

  /** As written, "u{}" followed by more text stands for code 0; with a digit required it is rejected. */
  lemma AsWrittenAcceptsEmptyBraces()
    ensures EscapeOf("u{}x'", 4, AsWrittenLimit, true) == Some(Escape(0, 3))
    ensures EscapeOf("u{}x'", 4, UnicodeMax, false) == None
  {
    HexRunAt("u{}x'", 2, 2);
  }

  /**
   * With the Unicode bound and at least one digit, every code point written
   * in hexadecimal between braces reads back as itself, and the escape ends
   * just past the '}'.
   */
  lemma CodePointRoundTrip(v: nat, rest: string)
    requires v <= UnicodeMax && |rest| >= 1
    ensures var num := Numerals.Numeral(v, 16, false);
            var s := "u{" + num + "}" + rest;
            EscapeOf(s, |s| - 1, UnicodeMax, false) == Some(Escape(v, |num| + 3))
  {
    var num := Numerals.Numeral(v, 16, false);
    var s := "u{" + num + "}" + rest;
    var j := 2 + |num|;
    assert s[2..j] == num;
    assert s[j] == '}';
    HexRunAt(s, 2, j);
    Numerals.NumeralValue(v, 16, false);
    assert Braced(s, |s| - 1, UnicodeMax, false) == Some(Escape(v, j + 1));
  }

  // ----- keyword table -----

  /** `kwt` maps exactly the keyword texts, each to its keyword. */
  ghost predicate IsKeywordTable(kwt: map<string, TokenType>) {
    (forall s :: s in kwt <==> KeywordOf(s).Some?) &&
    (forall s :: s in kwt ==> kwt[s] == KeywordOf(s).value)
  }

  /** `kwt` maps the texts of the keywords below `tt`, and only them. */
  ghost predicate TableUpTo(kwt: map<string, TokenType>, tt: int) {
    (forall t :: IsKeyword(t) && (t as int) < tt ==> KeywordText(t) in kwt && kwt[KeywordText(t)] == t) &&
    (forall s :: s in kwt ==> KeywordOf(s).Some? && (KeywordOf(s).value as int) < tt && kwt[s] == KeywordOf(s).value) &&
    |kwt| == tt - KwNil as int
  }

  /** Adding the next keyword's text extends the table by exactly one entry. */
  lemma TableStep(kwt: map<string, TokenType>, t: TokenType)
    requires IsKeyword(t) && TableUpTo(kwt, t as int)
    ensures TableUpTo(kwt[KeywordText(t) := t], t as int + 1)
  {
    KeywordTextRoundTrip(t);
    var name := KeywordText(t);
    assert name !in kwt;
    var kwt' := kwt[name := t];
    forall u | IsKeyword(u) && (u as int) < t as int + 1
      ensures KeywordText(u) in kwt' && kwt'[KeywordText(u)] == u
    {
      if u != t {
        KeywordTextRoundTrip(u);
      }
    }
  }

  /** A table holding every keyword's text holds exactly the keyword texts. */
  lemma TableDone(kwt: map<string, TokenType>)
    requires TableUpTo(kwt, KwEnd as int + 1)
    ensures IsKeywordTable(kwt) && |kwt| == |KeywordTexts|
  {
    forall s | KeywordOf(s).Some?
      ensures s in kwt
    {
      assert KeywordText(KeywordOf(s).value) == s;
    }
  }

  /**
   * `keyword_table_new`: a map from the text of each keyword, NIL to END, to
   * its token type.  It ends up holding one entry per keyword.
   */
  method KeywordTableNew() returns (kwt: map<string, TokenType>)
    ensures IsKeywordTable(kwt)
    ensures |kwt| == |KeywordTexts|
  {
    kwt := map[];
    var tt := KwNil as int;
    while tt <= KwEnd as int
      invariant KwNil as int <= tt <= KwEnd as int + 1
      invariant TableUpTo(kwt, tt)
    {
      var t := tt as TokenType;
      TableStep(kwt, t);
      kwt := kwt[KeywordText(t) := t];
      tt := tt + 1;
    }
    TableDone(kwt);
  }

  /** `keyword_table_lookup`: the keyword's token type, or 0 for a text that is no keyword. */
  method KeywordLookup(kwt: map<string, TokenType>, s: string) returns (tt: int)
    requires IsKeywordTable(kwt)
    ensures tt == 0 <==> KeywordOf(s).None?
    ensures tt != 0 ==> tt == KeywordOf(s).value as int
    ensures tt != 0 ==> 0 < tt < 256
  {
    if s !in kwt {
      return 0;
    }
    tt := kwt[s] as int;
  }

  // ----- tokens -----

  /** The value a token carries: an integer literal's value, or the text of an identifier or keyword. */
  datatype Value = NoValue | IntValue(v: int) | Name(text: string)

  datatype Tok = Tok(kind: TokenType, value: Value)

  /** What an error reports. */
  datatype LexError = UnexpectedChar(c: int) | UnexpectedEnd(what: string)

  /**
   * The outcome of one scan: a token, the index just after it and the new
   * end-of-input flag; an error; or a string or floating-point literal that
   * starts at `at`, which this model does not scan.
   */
  datatype Outcome = Scanned(tok: Tok, next: nat, eof: bool) | Failed(err: LexError) | Unscanned(at: nat)

  /** `stream_peek`: the character at `k`, or -1 at the end of the input. */
  function Peek(s: string, k: nat): int {
    if k < |s| then s[k] as int else -1
  }

  predicate IsAsciiAlpha(c: int) {
    'a' as int <= c <= 'z' as int || 'A' as int <= c <= 'Z' as int
  }

  predicate IsAsciiDigit(c: int) {
    '0' as int <= c <= '9' as int
  }

  /** A character that continues an identifier: a letter, a digit, '_' or any non-ASCII character. */
  predicate IsIdentChar(c: char) {
    IsAsciiAlpha(c as int) || IsAsciiDigit(c as int) || c == '_' || c as int >= 0x80
  }

  // ----- number literals -----

  /** The base a prefix letter after '0' selects (`tolower` of it is b, o or x). */
  function PrefixBase(c: int): (b: Option<Numerals.Base>)
    ensures b.Some? ==> IsAsciiAlpha(c)
  {
    if c == 'b' as int || c == 'B' as int then Some(2)
    else if c == 'o' as int || c == 'O' as int then Some(8)
    else if c == 'x' as int || c == 'X' as int then Some(16)
    else None
  }

  /**
   * The digits read from `j` in `base` (`zis_int_obj_or_smallint_s` over the
   * rest of the input): no digit is an error, a '.' after them starts a
   * floating-point literal, and otherwise they make an integer literal.
   */
  function DigitsFrom(s: string, start: nat, j: nat, base: Numerals.Base, eof: bool): (r: Outcome)
    requires j <= |s|
    ensures r.Scanned? ==> j < r.next <= |s| && r.tok.kind == LitInt && r.eof == eof
  {
    var (v, e) := IntObj.ParseSpec(s[j..], base);
    if v.None? then Failed(UnexpectedEnd("number literal"))
    else if Peek(s, j + e) == '.' as int then Unscanned(start)
    else Scanned(Tok(LitInt, IntValue(v.value)), j + e, eof)
  }

  /**
   * Where `scan_number` starts reading digits, and in which base: at a
   * digit other than '0' in base 10; after '0' and a prefix letter b, o or x
   * (either case) in base 2, 8 or 16; after a '0' that a digit or '_'
   * follows in base 10.  None when a '0' is followed by anything else.
   */
  function DigitsStart(s: string, i: nat): (r: Option<(nat, Numerals.Base)>)
    requires i < |s|
    ensures r.Some? ==> i <= r.value.0 <= |s|
    ensures r.None? ==> s[i] == '0'
  {
    if s[i] != '0' then Some((i, 10))
    else
      var c := Peek(s, i + 1);
      if PrefixBase(c).Some? then Some((i + 2, PrefixBase(c).value))
      else if IsAsciiDigit(c) || c == '_' as int then Some((i + 1, 10))
      else None
  }

  /**
   * `scan_number` at a decimal digit.  A '0' that no prefix letter, digit
   * or '_' follows is the integer 0 when '.' does not follow (a
   * floating-point literal) and no other letter does (an error).
   */
  function ScanNumber(s: string, i: nat, eof: bool): (r: Outcome)
    requires i < |s| && IsDecimal(s[i])
    ensures r.Scanned? ==> i < r.next <= |s| && r.tok.kind == LitInt && r.eof == eof
  {
    match DigitsStart(s, i)
    case Some((j, base)) => DigitsFrom(s, i, j, base, eof)
    case None =>
      var c := Peek(s, i + 1);
      if c == '.' as int then Unscanned(i)
      else if IsAsciiAlpha(c) then Failed(UnexpectedChar(c))
      else Scanned(Tok(LitInt, IntValue(0)), i + 1, eof)
  }


  /** Every character of `t` is a digit of `base`. */
  predicate AllDigits(t: string, base: Numerals.Base) {
    forall k :: 0 <= k < |t| ==> 0 <= Numerals.CharDigit(t[k]) < base
  }

  /** `rest` cannot continue a numeral of `base`: it is empty or starts with no digit, '_' or '.'. */
  predicate EndsNumeral(rest: string, base: Numerals.Base) {
    rest != [] ==> !(0 <= Numerals.CharDigit(rest[0]) < base) && rest[0] != '_' && rest[0] != '.'
  }

  /** What follows a text at `j` is the first character of the rest, or the end. */
  lemma PeekAfter(s: string, j: nat, t: string, rest: string)
    requires j <= |s| && s[j..] == t + rest
    ensures Peek(s, j + |t|) == if rest == [] then -1 else rest[0] as int
  {
    if rest != [] {
      assert s[j + |t|] == (t + rest)[|t|];
    }
  }

  /** Digits at `j` that nothing continues parse as their value and end where they end. */
  lemma DigitsParse(s: string, j: nat, t: string, rest: string, base: Numerals.Base)
    requires j <= |s| && s[j..] == t + rest
    requires t != [] && AllDigits(t, base) && EndsNumeral(rest, base)
    ensures IntObj.ParseSpec(s[j..], base) == (Some(Numerals.TextValue(t, base) as int), |t|)
    ensures Peek(s, j + |t|) != '.' as int
  {
    PeekAfter(s, j, t, rest);
    assert t + rest == "" + t + rest;
    IntObj.ParseNumeralAt(s[j..], "", t, rest, base);
  }

  /** When the digits that `DigitsStart` locates parse as the value of `t`, that value is the literal. */
  lemma ReadDigits(s: string, i: nat, j: nat, base: Numerals.Base, t: string, eof: bool)
    requires i < |s| && IsDecimal(s[i]) && DigitsStart(s, i) == Some((j, base)) && AllDigits(t, base)
    requires IntObj.ParseSpec(s[j..], base) == (Some(Numerals.TextValue(t, base) as int), |t|)
    requires Peek(s, j + |t|) != '.' as int
    ensures ScanNumber(s, i, eof) == Scanned(Tok(LitInt, IntValue(Numerals.TextValue(t, base))), j + |t|, eof)
  {
  }

  /** A base prefix followed by digits of that base, which nothing continues, reads as the digits' value. */
  lemma PrefixedLiteralValue(s: string, i: nat, t: string, rest: string, eof: bool)
    requires i + 2 <= |s| && s[i] == '0' && PrefixBase(s[i + 1] as int).Some? && s[i + 2..] == t + rest
    requires t != [] && AllDigits(t, PrefixBase(s[i + 1] as int).value)
    requires EndsNumeral(rest, PrefixBase(s[i + 1] as int).value)
    ensures var base := PrefixBase(s[i + 1] as int).value;
            ScanNumber(s, i, eof) == Scanned(Tok(LitInt, IntValue(Numerals.TextValue(t, base))), i + 2 + |t|, eof)
  {
    var base := PrefixBase(s[i + 1] as int).value;
    DigitsParse(s, i + 2, t, rest, base);
    assert DigitsStart(s, i) == Some(((i + 2) as nat, base));
    ReadDigits(s, i, i + 2, base, t, eof);
  }

  /** Decimal digits that do not start with '0', which nothing continues, read as their value. */
  lemma DecimalLiteralValue(s: string, i: nat, t: string, rest: string, eof: bool)
    requires i <= |s| && s[i..] == t + rest
    requires t != [] && t[0] != '0' && AllDigits(t, 10) && EndsNumeral(rest, 10)
    ensures i < |s| && IsDecimal(s[i])
    ensures ScanNumber(s, i, eof) == Scanned(Tok(LitInt, IntValue(Numerals.TextValue(t, 10))), i + |t|, eof)
  {
    assert s[i] == t[0] by {
      assert s[i] == s[i..][0];
    }
    DigitsParse(s, i, t, rest, 10);
    assert DigitsStart(s, i) == Some((i, 10 as Numerals.Base));
    ReadDigits(s, i, i, 10, t, eof);
  }

  /** A base prefix with no digit after it is an error. */
  lemma PrefixWithoutDigits()
    ensures ScanNumber("0x", 0, false) == Failed(UnexpectedEnd("number literal"))
  {
    assert DigitsStart("0x", 0) == Some((2, 16 as Numerals.Base));
    assert "0x"[2..] == [];
  }

  /** A letter other than a prefix letter right after '0' is an error. */
  lemma LetterAfterZero()
    ensures ScanNumber("0a1", 0, false) == Failed(UnexpectedChar('a' as int))
  {
    assert DigitsStart("0a1", 0) == None;
  }

  /** A digit outside the base after a prefix is no digit at all. */
  lemma DigitOutsideBase()
    ensures ScanNumber("0b2", 0, false) == Failed(UnexpectedEnd("number literal"))
  {
    var s := "0b2";
    assert DigitsStart(s, 0) == Some((2, 2 as Numerals.Base));
    assert s[2..] == "2";
    assert IntObj.ScanEnd("2", 0, 2) == 0;
    assert "2"[0..0] == [];
  }

  /** Digits followed by '.' start a floating-point literal, which this model does not scan. */
  lemma DigitsThenDot(s: string, i: nat, j: nat, base: Numerals.Base, v: int, e: nat, eof: bool)
    requires i < |s| && IsDecimal(s[i]) && DigitsStart(s, i) == Some((j, base))
    requires IntObj.ParseSpec(s[j..], base) == (Some(v), e) && Peek(s, j + e) == '.' as int
    ensures ScanNumber(s, i, eof) == Unscanned(i)
  {
  }

  lemma OneDotFive()
    ensures IntObj.ParseSpec("1.5", 10) == (Some(1), 1)
  {
    IntObj.ParseNumeralAt("1.5", "", "1", ".5", 10);
    assert "1"[..0] == [];
  }

  /** "1." starts a floating-point literal. */
  lemma OneThenDot()
    ensures ScanNumber("1.5", 0, false) == Unscanned(0)
  {
    var s := "1.5";
    assert DigitsStart(s, 0) == Some((0, 10 as Numerals.Base));
    OneDotFive();
    assert s[0..] == s;
    DigitsThenDot(s, 0, 0, 10, 1, 1, false);
  }

  /** "0." and "1." start floating-point literals. */
  lemma FloatingPointStart()
    ensures ScanNumber("0.5", 0, false) == Unscanned(0)
    ensures ScanNumber("1.5", 0, false) == Unscanned(0)
  {
    assert DigitsStart("0.5", 0) == None;
    OneThenDot();
  }

  /**
   * The digits after a base prefix are read by the signed-integer parser,
   * so a '-' right after the prefix is taken as a sign: "0x-5" is the
   * integer -5.
   */
  lemma SignAfterPrefix()
    ensures ScanNumber("0x-5", 0, false) == Scanned(Tok(LitInt, IntValue(-5)), 4, false)
  {
    var s := "0x-5";
    assert DigitsStart(s, 0) == Some((2, 16 as Numerals.Base));
    assert s[2..] == "-5";
    MinusFive();
  }

  lemma MinusFive()
    ensures IntObj.ParseSpec("-5", 16) == (Some(-5), 2)
  {
    IntObj.ParseNumeralAt("-5", "-", "5", "", 16);
    assert "5"[..0] == [];
  }

  // ----- operators -----

  /** `CASE_OPERATOR_2`: "C", or "C=" when '=' follows. */
  function Two(s: string, i: nat, single: TokenType, withEql: TokenType): (TokenType, nat) {
    if Peek(s, i + 1) == '=' as int then (withEql, 2) else (single, 1)
  }

  /** `CASE_OPERATOR_3X`: "CX" when X follows, else "C=" when '=' follows, else "C". */
  function Three(s: string, i: nat, x: char, single: TokenType, withEql: TokenType, withX: TokenType): (TokenType, nat) {
    if Peek(s, i + 1) == x as int then (withX, 2)
    else if Peek(s, i + 1) == '=' as int then (withEql, 2)
    else (single, 1)
  }

  /**
   * The operator or punctuation token that starts at `i` and how many
   * characters it takes, or None when `s[i]` starts none.  As written
   * (`fixed` false), ".." also swallows the character after it.  No "||",
   * "<<=" or ">>=" is ever produced.
   */
  function ScanOperator(s: string, i: nat, fixed: bool): (r: Option<(TokenType, nat)>)
    requires i < |s|
    ensures r.Some? ==> 1 <= r.value.1 <= 3 && i + r.value.1 <= |s|
    ensures r.Some? ==> r.value.0 <= RBrace || r.value.0 == OpPow || r.value.0 == OpCmp
    ensures r.Some? ==> r.value.0 != OpOr && r.value.0 != OpShlEql && r.value.0 != OpShrEql
  {
    match s[i]
    case '!' => Some(Two(s, i, OpNot, OpNe))
    case '$' => Some((Dollar, 1))
    case '%' => Some(Two(s, i, OpRem, OpRemEql))
    case '&' => Some(Three(s, i, '&', OpBitAnd, OpBitAndEql, OpAnd))
    case '*' => Some(Three(s, i, '*', OpMul, OpMulEql, OpPow))
    case '+' => Some(Two(s, i, OpAdd, OpAddEql))
    case ',' => Some((Comma, 1))
    case '-' => Some(Three(s, i, '>', OpSub, OpSubEql, RArrow))
    case '.' =>
      if Peek(s, i + 1) != '.' as int then Some((OpPeriod, 1))
      else if Peek(s, i + 2) == '.' as int then Some((Ellipsis, 3))
      else if !fixed && i + 2 < |s| then Some((DotDot, 3))
      else Some((DotDot, 2))
    case '/' => Some(Two(s, i, OpDiv, OpDivEql))
    case ':' => Some((OpColon, 1))
    case '<' =>
      if Peek(s, i + 1) == '=' as int then
        if Peek(s, i + 2) == '>' as int then Some((OpCmp, 3)) else Some((OpLe, 2))
      else if Peek(s, i + 1) == '<' as int then Some((OpShl, 2))
      else if Peek(s, i + 1) == '-' as int then Some((LArrow, 2))
      else Some((OpLt, 1))
    case '=' => Some(Two(s, i, OpEql, OpEq))
    case '>' => Some(Three(s, i, '>', OpGt, OpGe, OpShr))
    case '?' => Some((Question, 1))
    case '^' => Some(Two(s, i, OpBitXor, OpBitXorEql))
    case '|' => Some(Two(s, i, OpBitOr, OpBitOrEql))
    case '~' => Some((OpBitNot, 1))
    case '(' => Some((LParen, 1))
    case ')' => Some((RParen, 1))
    case '[' => Some((LBracket, 1))
    case ']' => Some((RBracket, 1))
    case '{' => Some((LBrace, 1))
    case '}' => Some((RBrace, 1))
    case _ => None
  }

  /** The text the corrected scanner takes at `i` is the spelling of the token it reports. */
  predicate TakesSpelling(s: string, i: nat)
    requires i < |s| && ScanOperator(s, i, true).Some?
  {
    var (t, k) := ScanOperator(s, i, true).value;
    s[i..i + k] == Spelling(t)
  }

  /** The corrected scanner takes exactly the text of the operator it reports. */
  lemma OperatorSpelled(s: string, i: nat)
    requires i < |s| && ScanOperator(s, i, true).Some?
    ensures TakesSpelling(s, i)
  {
    match s[i]
    case '$' => DollarSpelled(s, i);
    case ',' => CommaSpelled(s, i);
    case ':' => ColonSpelled(s, i);
    case '?' => QuestionSpelled(s, i);
    case '~' => TildeSpelled(s, i);
    case '(' => LParenSpelled(s, i);
    case ')' => RParenSpelled(s, i);
    case '[' => LBracketSpelled(s, i);
    case ']' => RBracketSpelled(s, i);
    case '{' => LBraceSpelled(s, i);
    case '}' => RBraceSpelled(s, i);
    case '!' => BangSpelled(s, i);
    case '%' => PercentSpelled(s, i);
    case '+' => PlusSpelled(s, i);
    case '/' => SlashSpelled(s, i);
    case '=' => EqualsSpelled(s, i);
    case '^' => CaretSpelled(s, i);
    case '|' => BarSpelled(s, i);
    case '&' => AmpSpelled(s, i);
    case '*' => StarSpelled(s, i);
    case '-' => MinusSpelled(s, i);
    case '>' => GreaterSpelled(s, i);
    case '.' => DotSpelled(s, i);
    case '<' => LessSpelled(s, i);
  }

  /** The one-, two- and three-character slices at `i`, element by element. */
  lemma Slices(s: string, i: nat)
    requires i < |s|
    ensures s[i..i + 1] == [s[i]]
    ensures i + 1 < |s| ==> s[i..i + 2] == [s[i], s[i + 1]]
    ensures i + 2 < |s| ==> s[i..i + 3] == [s[i], s[i + 1], s[i + 2]]
  {
  }

  // One lemma per first character, so that each proof sees a single branch of the scanner.

  lemma DollarSpelled(s: string, i: nat)
    requires i < |s| && s[i] == '$'
    ensures ScanOperator(s, i, true).Some? && TakesSpelling(s, i)
  {
    assert s[i..i + 1] == [s[i]];
  }

  lemma CommaSpelled(s: string, i: nat)
    requires i < |s| && s[i] == ','
    ensures ScanOperator(s, i, true).Some? && TakesSpelling(s, i)
  {
    assert s[i..i + 1] == [s[i]];
  }

  lemma ColonSpelled(s: string, i: nat)
    requires i < |s| && s[i] == ':'
    ensures ScanOperator(s, i, true).Some? && TakesSpelling(s, i)
  {
    assert s[i..i + 1] == [s[i]];
  }

  lemma QuestionSpelled(s: string, i: nat)
    requires i < |s| && s[i] == '?'
    ensures ScanOperator(s, i, true).Some? && TakesSpelling(s, i)
  {
    assert s[i..i + 1] == [s[i]];
  }

  lemma TildeSpelled(s: string, i: nat)
    requires i < |s| && s[i] == '~'
    ensures ScanOperator(s, i, true).Some? && TakesSpelling(s, i)
  {
    assert s[i..i + 1] == [s[i]];
  }

  lemma LParenSpelled(s: string, i: nat)
    requires i < |s| && s[i] == '('
    ensures ScanOperator(s, i, true).Some? && TakesSpelling(s, i)
  {
    assert s[i..i + 1] == [s[i]];
  }

  lemma RParenSpelled(s: string, i: nat)
    requires i < |s| && s[i] == ')'
    ensures ScanOperator(s, i, true).Some? && TakesSpelling(s, i)
  {
    assert s[i..i + 1] == [s[i]];
  }

  lemma LBracketSpelled(s: string, i: nat)
    requires i < |s| && s[i] == '['
    ensures ScanOperator(s, i, true).Some? && TakesSpelling(s, i)
  {
    assert s[i..i + 1] == [s[i]];
  }

  lemma RBracketSpelled(s: string, i: nat)
    requires i < |s| && s[i] == ']'
    ensures ScanOperator(s, i, true).Some? && TakesSpelling(s, i)
  {
    assert s[i..i + 1] == [s[i]];
  }

  lemma LBraceSpelled(s: string, i: nat)
    requires i < |s| && s[i] == '{'
    ensures ScanOperator(s, i, true).Some? && TakesSpelling(s, i)
  {
    assert s[i..i + 1] == [s[i]];
  }

  lemma RBraceSpelled(s: string, i: nat)
    requires i < |s| && s[i] == '}'
    ensures ScanOperator(s, i, true).Some? && TakesSpelling(s, i)
  {
    assert s[i..i + 1] == [s[i]];
  }

  lemma BangSpelled(s: string, i: nat)
    requires i < |s| && s[i] == '!'
    ensures ScanOperator(s, i, true).Some? && TakesSpelling(s, i)
  {
    Slices(s, i);
  }

  lemma PercentSpelled(s: string, i: nat)
    requires i < |s| && s[i] == '%'
    ensures ScanOperator(s, i, true).Some? && TakesSpelling(s, i)
  {
    Slices(s, i);
  }

  lemma PlusSpelled(s: string, i: nat)
    requires i < |s| && s[i] == '+'
    ensures ScanOperator(s, i, true).Some? && TakesSpelling(s, i)
  {
    Slices(s, i);
  }

  lemma SlashSpelled(s: string, i: nat)
    requires i < |s| && s[i] == '/'
    ensures ScanOperator(s, i, true).Some? && TakesSpelling(s, i)
  {
    Slices(s, i);
  }

  lemma EqualsSpelled(s: string, i: nat)
    requires i < |s| && s[i] == '='
    ensures ScanOperator(s, i, true).Some? && TakesSpelling(s, i)
  {
    Slices(s, i);
  }

  lemma CaretSpelled(s: string, i: nat)
    requires i < |s| && s[i] == '^'
    ensures ScanOperator(s, i, true).Some? && TakesSpelling(s, i)
  {
    Slices(s, i);
  }

  lemma BarSpelled(s: string, i: nat)
    requires i < |s| && s[i] == '|'
    ensures ScanOperator(s, i, true).Some? && TakesSpelling(s, i)
  {
    Slices(s, i);
  }

  lemma AmpSpelled(s: string, i: nat)
    requires i < |s| && s[i] == '&'
    ensures ScanOperator(s, i, true).Some? && TakesSpelling(s, i)
  {
    Slices(s, i);
  }

  lemma StarSpelled(s: string, i: nat)
    requires i < |s| && s[i] == '*'
    ensures ScanOperator(s, i, true).Some? && TakesSpelling(s, i)
  {
    Slices(s, i);
  }

  lemma MinusSpelled(s: string, i: nat)
    requires i < |s| && s[i] == '-'
    ensures ScanOperator(s, i, true).Some? && TakesSpelling(s, i)
  {
    Slices(s, i);
  }

  lemma GreaterSpelled(s: string, i: nat)
    requires i < |s| && s[i] == '>'
    ensures ScanOperator(s, i, true).Some? && TakesSpelling(s, i)
  {
    Slices(s, i);
  }

  lemma DotSpelled(s: string, i: nat)
    requires i < |s| && s[i] == '.'
    ensures ScanOperator(s, i, true).Some? && TakesSpelling(s, i)
  {
    Slices(s, i);
  }

  lemma LessSpelled(s: string, i: nat)
    requires i < |s| && s[i] == '<'
    ensures ScanOperator(s, i, true).Some? && TakesSpelling(s, i)
  {
    Slices(s, i);
  }

  /** As written, ".." swallows the next character: in "..x" the token takes "..x", not "..". */
  lemma AsWrittenDotDotSwallows()
    ensures ScanOperator("..x", 0, false) == Some((DotDot, 3))
    ensures "..x"[0..3] != Spelling(DotDot)
    ensures ScanOperator("..x", 0, true) == Some((DotDot, 2))
  {
    assert "..x"[0..3][2] == 'x';
  }

  /** The longer operators win over their prefixes. */
  lemma OperatorExamples()
    ensures ScanOperator("<=>", 0, true) == Some((OpCmp, 3))
    ensures ScanOperator("<=1", 0, true) == Some((OpLe, 2))
    ensures ScanOperator("<<=", 0, true) == Some((OpShl, 2))
    ensures ScanOperator("...", 0, true) == Some((Ellipsis, 3))
    ensures ScanOperator("->", 0, true) == Some((RArrow, 2))
    ensures ScanOperator("**", 0, true) == Some((OpPow, 2))
    ensures ScanOperator("||", 0, true) == Some((OpBitOr, 1))
  {
  }

  // ----- identifiers and keywords -----

  /** The end of the run of identifier characters that starts at `i`. */
  function IdentEnd(s: string, i: nat): (j: nat)
    requires i <= |s|
    ensures i <= j <= |s|
    decreases |s| - i
  {
    if i < |s| && IsIdentChar(s[i]) then IdentEnd(s, i + 1) else i
  }

  /**
   * `scan_identifier_or_keyword`: the identifier characters from `i` on make
   * an identifier, retyped as the keyword they spell if they spell one.
   */
  function ScanWord(s: string, i: nat, eof: bool): (r: Outcome)
    requires i < |s| && IsIdentChar(s[i])
    ensures r.Scanned? && i < r.next <= |s| && r.tok.value == Name(s[i..r.next]) && r.eof == eof
    ensures r.tok.kind == Identifier || IsKeyword(r.tok.kind)
  {
    var j := IdentEnd(s, i);
    var text := s[i..j];
    match KeywordOf(text)
    case Some(t) => Scanned(Tok(t, Name(text)), j, eof)
    case None => Scanned(Tok(Identifier, Name(text)), j, eof)
  }

  /** The run of identifier characters from `i` ends at `j` when all before `j` are identifier characters and `s[j]` is not. */
  lemma {:induction false} IdentEndAt(s: string, i: nat, j: nat)
    requires i <= j <= |s|
    requires forall m :: i <= m < j ==> IsIdentChar(s[m])
    requires j < |s| ==> !IsIdentChar(s[j])
    ensures IdentEnd(s, i) == j
    decreases j - i
  {
    if i < j {
      IdentEndAt(s, i + 1, j);
    }
  }

  /** Keywords are spelled with at least two lower-case letters and nothing else. */
  lemma KeywordLetters(t: TokenType)
    requires IsKeyword(t)
    ensures |KeywordText(t)| >= 2
    ensures forall m :: 0 <= m < |KeywordText(t)| ==> 'a' <= KeywordText(t)[m] <= 'z'
  {
  }

  /** The characters of a keyword's text at `i` are identifier characters. */
  lemma KeywordIdentChars(s: string, i: nat, t: TokenType)
    requires IsKeyword(t)
    requires i + |KeywordText(t)| <= |s| && s[i..i + |KeywordText(t)|] == KeywordText(t)
    ensures |KeywordText(t)| > 0
    ensures forall m :: i <= m < i + |KeywordText(t)| ==> IsIdentChar(s[m])
  {
    var text := KeywordText(t);
    KeywordLetters(t);
    forall m | i <= m < i + |text|
      ensures IsIdentChar(s[m])
    {
      assert s[m] == text[m - i];
    }
  }

  /** The text of a keyword, ended by a character that cannot continue an identifier, is scanned as that keyword. */
  lemma KeywordScanned(s: string, i: nat, t: TokenType, eof: bool)
    requires IsKeyword(t)
    requires i + |KeywordText(t)| <= |s| && s[i..i + |KeywordText(t)|] == KeywordText(t)
    requires i + |KeywordText(t)| < |s| ==> !IsIdentChar(s[i + |KeywordText(t)|])
    ensures i < |s| && IsIdentChar(s[i])
    ensures ScanWord(s, i, eof) == Scanned(Tok(t, Name(KeywordText(t))), i + |KeywordText(t)|, eof)
  {
    var j := i + |KeywordText(t)|;
    KeywordIdentChars(s, i, t);
    IdentEndAt(s, i, j);
    KeywordTextRoundTrip(t);
  }

  // ----- the scanner -----

  /** The white space `scan_next` skips: tab, vertical tab, form feed and space. */
  predicate IsBlank(c: char) {
    c == '\t' || c as int == 0x0b || c as int == 0x0c || c == ' '
  }

  /** The first '\n' at or after `i`, or the end of the input. */
  function NextNewline(s: string, i: nat): (k: nat)
    requires i <= |s|
    ensures i <= k <= |s| && (k < |s| ==> s[k] == '\n')
    ensures forall m :: i <= m < k ==> s[m] != '\n'
    decreases |s| - i
  {
    if i == |s| || s[i] == '\n' then i else NextNewline(s, i + 1)
  }

  /**
   * Where scanning resumes after the comment that starts at `i`.  As written
   * (`stream_ignore_until`) the '\n' that ends the comment goes with it;
   * corrected, scanning resumes at that '\n', which then ends the statement.
   */
  function CommentEnd(s: string, i: nat, fixed: bool): (j: nat)
    requires i < |s| && s[i] == '#'
    ensures i < j <= |s|
  {
    var k := NextNewline(s, i);
    if fixed || k == |s| then k else k + 1
  }

  /**
   * One token from a character that starts one: a number, an identifier or
   * keyword, "@", an operator or punctuation; a string literal is left
   * unscanned, and any other character is an error.
   */
  function ScanToken(s: string, i: nat, eof: bool, fixed: bool): (r: Outcome)
    requires i < |s|
    ensures r.Scanned? ==> i < r.next <= |s| && r.eof == eof && r.tok.kind != Eos && r.tok.kind != Eof
    ensures r.Unscanned? ==> r.at == i
  {
    var c := s[i];
    if IsDecimal(c) then ScanNumber(s, i, eof)
    else if IsAsciiAlpha(c as int) || c == '_' || c as int >= 0x80 then ScanWord(s, i, eof)
    else if c == '"' || c == '\'' then Unscanned(i)
    else if c == '@' then
      if Peek(s, i + 1) == '"' as int || Peek(s, i + 1) == '\'' as int then Unscanned(i)
      else Scanned(Tok(At, NoValue), i + 1, eof)
    else
      match ScanOperator(s, i, fixed)
      case Some((t, k)) => Scanned(Tok(t, NoValue), i + k, eof)
      case None => Failed(UnexpectedChar(c as int))
  }

  /**
   * `scan_next` from index `i`: white space, comments and escaped line
   * breaks are skipped; a line break or ';' ends a statement (EOS) unless
   * line breaks are being ignored, where a line break is skipped and ';' is
   * an error; a '\r' must be followed by '\n'; the end of the input gives
   * EOS the first time and EOF after that.
   */
  function Scan(s: string, i: nat, ignoreEol: bool, eof: bool, fixed: bool): (r: Outcome)
    requires i <= |s|
    ensures r.Scanned? ==> i <= r.next <= |s|
    ensures r.Scanned? && r.next == i ==> i == |s| && r.eof
    ensures r.Unscanned? ==> i <= r.at < |s|
    decreases |s| - i
  {
    if i == |s| then Scanned(Tok(if eof then Eof else Eos, NoValue), i, true)
    else
      var c := s[i];
      if IsBlank(c) then Scan(s, i + 1, ignoreEol, eof, fixed)
      else if c == '\r' && Peek(s, i + 1) != '\n' as int then Failed(UnexpectedChar('\r' as int))
      else if c == '\r' || c == '\n' then
        var after := if c == '\r' then i + 2 else i + 1;
        if ignoreEol then Scan(s, after, ignoreEol, eof, fixed) else Scanned(Tok(Eos, NoValue), after, eof)
      else if c == ';' then
        if ignoreEol then Failed(UnexpectedChar(';' as int)) else Scanned(Tok(Eos, NoValue), i + 1, eof)
      else if c == '#' then Scan(s, CommentEnd(s, i, fixed), ignoreEol, eof, fixed)
      else if c == '\\' then
        var d := Peek(s, i + 1);
        if d == '\n' as int then Scan(s, i + 2, ignoreEol, eof, fixed)
        else if d == '"' as int || d == '\'' as int then Unscanned(i)
        else if d == -1 then Failed(UnexpectedEnd("input stream"))
        else Failed(UnexpectedChar(d))
      else ScanToken(s, i, eof, fixed)
  }

  /** White space up to the end of the input gives EOS, and EOF once EOS has been given. */
  lemma {:induction false} BlankTail(s: string, i: nat, ignoreEol: bool, fixed: bool)
    requires i <= |s| && forall m :: i <= m < |s| ==> IsBlank(s[m])
    ensures Scan(s, i, ignoreEol, false, fixed) == Scanned(Tok(Eos, NoValue), |s|, true)
    ensures Scan(s, i, ignoreEol, true, fixed) == Scanned(Tok(Eof, NoValue), |s|, true)
    decreases |s| - i
  {
    if i < |s| {
      BlankTail(s, i + 1, ignoreEol, fixed);
    }
  }

  /** While line breaks are ignored, EOS comes only from the end of the input. */
  lemma {:induction false} IgnoredEolOnlyEndsAtEnd(s: string, i: nat, eof: bool, fixed: bool)
    requires i <= |s|
    ensures var r := Scan(s, i, true, eof, fixed); r.Scanned? && r.tok.kind == Eos ==> r.next == |s|
    decreases |s| - i
  {
    if i < |s| {
      var c := s[i];
      if IsBlank(c) {
        IgnoredEolOnlyEndsAtEnd(s, i + 1, eof, fixed);
      } else if c == '\r' && Peek(s, i + 1) == '\n' as int {
        IgnoredEolOnlyEndsAtEnd(s, i + 2, eof, fixed);
      } else if c == '\n' {
        IgnoredEolOnlyEndsAtEnd(s, i + 1, eof, fixed);
      } else if c == '#' {
        IgnoredEolOnlyEndsAtEnd(s, CommentEnd(s, i, fixed), eof, fixed);
      } else if c == '\\' && Peek(s, i + 1) == '\n' as int {
        IgnoredEolOnlyEndsAtEnd(s, i + 2, eof, fixed);
      }
    }
  }

  /** Corrected, a comment runs to its line break, which still ends the statement. */
  lemma CommentEndsStatement(s: string, i: nat, eof: bool)
    requires i < |s| && s[i] == '#' && NextNewline(s, i) < |s|
    ensures Scan(s, i, false, eof, true) == Scanned(Tok(Eos, NoValue), NextNewline(s, i) + 1, eof)
  {
    var k := NextNewline(s, i);
    assert Scan(s, i, false, eof, true) == Scan(s, k, false, eof, true);
  }

  /**
   * As written, the line break that ends a comment is skipped with it, so
   * "#" followed by a line break and "(" continues the statement with "(";
   * corrected, the line break ends the statement.
   */
  lemma AsWrittenCommentJoinsLines()
    ensures Scan("#\n(", 0, false, false, false) == Scanned(Tok(LParen, NoValue), 3, false)
    ensures Scan("#\n(", 0, false, false, true) == Scanned(Tok(Eos, NoValue), 2, false)
  {
    var s := "#\n(";
    assert NextNewline(s, 0) == 1 by {
      assert NextNewline(s, 1) == 1;
    }
    assert Scan(s, 0, false, false, false) == Scan(s, 2, false, false, false);
    assert ScanOperator(s, 2, false) == Some((LParen, 1));
  }

  /**
   * `struct zis_lexer`: the input, how far it has been read, the depth of
   * the regions in which line breaks are ignored, whether the end of the
   * input has been reported, and the keyword table.
   */
  class Lexer {
    var input: string
    var pos: nat
    var ignoreEol: nat
    var inputEof: bool
    var keywords: map<string, TokenType>

    ghost predicate Valid()
      reads this
    {
      pos <= |input| && IsKeywordTable(keywords)
    }

    /** `zis_lexer_init`: the keyword table is built; there is no input yet. */
    constructor ()
      ensures Valid() && input == [] && pos == 0 && ignoreEol == 0 && !inputEof
    {
      var kwt := KeywordTableNew();
      keywords := kwt;
      input := [];
      pos := 0;
      ignoreEol := 0;
      inputEof := false;
    }

    /** `zis_lexer_start`: reading starts at the beginning of `s`, with line breaks significant. */
    method Start(s: string)
      requires Valid()
      modifies this
      ensures Valid() && input == s && pos == 0 && ignoreEol == 0 && !inputEof && keywords == old(keywords)
    {
      input := s;
      pos := 0;
      ignoreEol := 0;
      inputEof := false;
    }

    /** `zis_lexer_ignore_eol_begin`: one more region in which line breaks are ignored. */
    method IgnoreEolBegin()
      modifies this
      ensures ignoreEol == old(ignoreEol) + 1
      ensures input == old(input) && pos == old(pos) && inputEof == old(inputEof) && keywords == old(keywords)
    {
      ignoreEol := ignoreEol + 1;
    }

    /** `zis_lexer_ignore_eol_end`: the innermost such region ends. */
    method IgnoreEolEnd()
      requires ignoreEol > 0
      modifies this
      ensures ignoreEol == old(ignoreEol) - 1
      ensures input == old(input) && pos == old(pos) && inputEof == old(inputEof) && keywords == old(keywords)
    {
      ignoreEol := ignoreEol - 1;
    }

    /** `scan_identifier_or_keyword`, looking the text up in the keyword table. */
    method ReadWord(s: string, i: nat, eof: bool) returns (r: Outcome)
      requires i < |s| && IsIdentChar(s[i]) && IsKeywordTable(keywords)
      ensures r == ScanWord(s, i, eof)
    {
      var j := i;
      while j < |s| && IsIdentChar(s[j])
        invariant i <= j <= |s| && IdentEnd(s, j) == IdentEnd(s, i)
        decreases |s| - j
      {
        j := j + 1;
      }
      var text := s[i..j];
      var kw := KeywordLookup(keywords, text);
      if kw == 0 {
        r := Scanned(Tok(Identifier, Name(text)), j, eof);
      } else {
        r := Scanned(Tok(kw as TokenType, Name(text)), j, eof);
      }
    }

    /** `stream_ignore_until(input, '\n')` from a '#', stopping at the line break. */
    static method SkipComment(s: string, i: nat) returns (k: nat)
      requires i < |s| && s[i] == '#'
      ensures k == NextNewline(s, i)
    {
      k := i + 1;
      while k < |s| && s[k] != '\n'
        invariant i < k <= |s| && NextNewline(s, k) == NextNewline(s, i)
        decreases |s| - k
      {
        k := k + 1;
      }
    }

    /**
     * `scan_next` from index `i` with the corrected comment and ".." rules:
     * the loop skips what `goto scan_next_char` skips and stops at the
     * first token, error or unscanned literal.
     */
    method ScanFrom(s: string, i0: nat, ie: bool, eof: bool) returns (r: Outcome)
      requires i0 <= |s| && IsKeywordTable(keywords)
      ensures r == Scan(s, i0, ie, eof, true)
    {
      var i := i0;
      while true
        invariant i <= |s| && Scan(s, i, ie, eof, true) == Scan(s, i0, ie, eof, true)
        decreases |s| - i
      {
        if i == |s| {
          r := Scanned(Tok(if eof then Eof else Eos, NoValue), i, true);
          return;
        }
        var c := s[i];
        if IsBlank(c) {
          i := i + 1;
        } else if c == '\r' && (i + 1 == |s| || s[i + 1] != '\n') {
          r := Failed(UnexpectedChar('\r' as int));
          return;
        } else if c == '\r' || c == '\n' {
          var after := if c == '\r' then i + 2 else i + 1;
          if !ie {
            r := Scanned(Tok(Eos, NoValue), after, eof);
            return;
          }
          i := after;
        } else if c == ';' {
          r := if ie then Failed(UnexpectedChar(';' as int)) else Scanned(Tok(Eos, NoValue), i + 1, eof);
          return;
        } else if c == '#' {
          i := SkipComment(s, i);
        } else if c == '\\' {
          if i + 1 < |s| && s[i + 1] == '\n' {
            i := i + 2;
          } else {
            r := if i + 1 == |s| then Failed(UnexpectedEnd("input stream"))
                 else if s[i + 1] == '"' || s[i + 1] == '\'' then Unscanned(i)
                 else Failed(UnexpectedChar(s[i + 1] as int));
            return;
          }
        } else {
          if IsAsciiAlpha(c as int) || c == '_' || c as int >= 0x80 {
            r := ReadWord(s, i, eof);
          } else {
            r := ScanToken(s, i, eof, true);
          }
          return;
        }
      }
    }

    /**
     * `zis_lexer_next`: the next token, with the corrected comment and ".."
     * rules.  The read position moves past the token and the end flag is
     * updated; on an error or an unscanned literal nothing changes.
     */
    method Next() returns (r: Outcome)
      requires Valid()
      modifies this
      ensures Valid() && input == old(input) && ignoreEol == old(ignoreEol) && keywords == old(keywords)
      ensures r == Scan(input, old(pos), ignoreEol > 0, old(inputEof), true)
      ensures r.Scanned? ==> pos == r.next && inputEof == r.eof
      ensures !r.Scanned? ==> pos == old(pos) && inputEof == old(inputEof)
    {
      r := ScanFrom(input, pos, ignoreEol > 0, inputEof);
      if r.Scanned? {
        pos := r.next;
        inputEof := r.eof;
      }
    }
  }
}
