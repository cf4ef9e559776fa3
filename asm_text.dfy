/**
 * The line reader of the text assembler (`tas_parse_line`,
 * core/assembly.c): one line holds a mnemonic and one to three integer
 * operands separated by commas, or a pseudo-operation (a name after '.')
 * with free-form operands; blank lines and lines whose first word starts
 * with '#' are skipped.
 *
 * The lines arrive as what `zis_stream_obj_read_line` returns for a
 * 127-byte buffer: a line that fits ends with its '\n'.  Operands are read
 * as `sscanf` reads `%i`: white space, an optional sign, then hexadecimal
 * after "0x" or "0X", octal after a leading '0', decimal otherwise.
 */
module AsmText {
  import opened Wrappers
  import opened AsmNames
  import Numerals
  import Strutil

  /* ----- character classes ------------------------------------------------ */

  /** The separators of the line, `" \t\v"`. */
  predicate IsBlank(c: char) {
    c == ' ' || c == '\t' || c == 11 as char
  }

  /** `isspace` in the C locale: what `%i` skips before a number. */
  predicate IsSpace(c: char) {
    IsBlank(c) || c == '\n' || c == 12 as char || c == '\r'
  }

  /** `toupper` in the C locale, on one character. */
  function UpperChar(c: char): char {
    if c as int < 0x100 then Strutil.Upper(c as int) as char else c
  }

  /** `zis_str_toupper` over a whole name. */
  function UpperStr(s: string): (r: string)
    ensures |r| == |s|
    ensures forall i :: 0 <= i < |s| ==> r[i] == UpperChar(s[i])
  {
    if s == [] then [] else UpperStr(s[..|s| - 1]) + [UpperChar(s[|s| - 1])]
  }

  /** The end of the run of blanks from `i`: `i + strspn(s + i, " \t\v")`. */
  function SkipBlanks(s: string, i: nat): (e: nat)
    requires i <= |s|
    ensures i <= e <= |s| && (e < |s| ==> !IsBlank(s[e]))
    decreases |s| - i
  {
    if i < |s| && IsBlank(s[i]) then SkipBlanks(s, i + 1) else i
  }

  /** The end of the word from `i`: `i + strcspn(s + i, " \t\v")`. */
  function WordEnd(s: string, i: nat): (e: nat)
    requires i <= |s|
    ensures i <= e <= |s| && (e < |s| ==> IsBlank(s[e]))
    decreases |s| - i
  {
    if i < |s| && !IsBlank(s[i]) then WordEnd(s, i + 1) else i
  }

  /** The end of the white space from `i`, as `%i` skips it. */
  function SkipSpaces(s: string, i: nat): (e: nat)
    requires i <= |s|
    ensures i <= e <= |s| && (e < |s| ==> !IsSpace(s[e]))
    decreases |s| - i
  {
    if i < |s| && IsSpace(s[i]) then SkipSpaces(s, i + 1) else i
  }

  /** The end of the run of digits of `base` from `i`. */
  function DigitRun(s: string, i: nat, base: Numerals.Base): (e: nat)
    requires i <= |s|
    ensures i <= e <= |s| && (e < |s| ==> !(0 <= Numerals.CharDigit(s[e]) < base))
    decreases |s| - i
  {
    if i < |s| && 0 <= Numerals.CharDigit(s[i]) < base then DigitRun(s, i + 1, base) else i
  }

  /* ----- %i --------------------------------------------------------------- */

  /** A number `%i` converted and the position right after it. */
  datatype Scanned = Scanned(value: int, end: nat)

  /** The value of `s[i..e]` read as digits of `base`. */
  function RunValue(s: string, i: nat, e: nat, base: Numerals.Base): int
    requires i <= e <= |s|
    decreases e - i
  {
    if e == i then 0 else RunValue(s, i, e - 1, base) * base + Numerals.CharDigit(s[e - 1])
  }

  /** The value of the digits `s[i..e]` in `base`, negated when `neg`. */
  function Signed(s: string, i: nat, e: nat, base: Numerals.Base, neg: bool): int
    requires i <= e <= |s|
  {
    var n := RunValue(s, i, e, base);
    if neg then -n else n
  }

  /**
   * The digits of one `%i` conversion from position `k`, after its sign:
   * "0x" or "0X" and at least one hexadecimal digit, or a '0' and octal
   * digits, or at least one decimal digit; none on a matching failure.
   */
  function ScanDigits(s: string, k: nat, neg: bool): (r: Option<Scanned>)
    requires k <= |s|
    ensures r.Some? ==> k < r.value.end <= |s|
  {
    if k + 1 < |s| && s[k] == '0' && (s[k + 1] == 'x' || s[k + 1] == 'X') then
      var e := DigitRun(s, k + 2, 16);
      if e == k + 2 then None else Some(Scanned(Signed(s, k + 2, e, 16, neg), e))
    else if k < |s| && s[k] == '0' then
      var e := DigitRun(s, k, 8);
      Some(Scanned(Signed(s, k, e, 8, neg), e))
    else
      var e := DigitRun(s, k, 10);
      if e == k then None else Some(Scanned(Signed(s, k, e, 10, neg), e))
  }

  /**
   * One `%i` conversion at the start of `s`: white space, a sign, the
   * digits; the end is the number of characters it took.
   */
  function ScanInt(s: string): (r: Option<Scanned>)
    ensures r.Some? ==> 0 < r.value.end <= |s|
  {
    var j := SkipSpaces(s, 0);
    if j < |s| && (s[j] == '-' || s[j] == '+') then ScanDigits(s, j + 1, s[j] == '-')
    else ScanDigits(s, j, false)
  }

  /**
   * `sscanf(s, "%i%n,%i%n,%i%n", ...)` with `room` conversions left: the
   * numbers converted and the length up to the end of the last one (0 when
   * none was).  A conversion after the first needs a ',' right after the
   * previous number.
   */
  function Operands(s: string, room: nat): (r: (seq<int>, nat))
    ensures |r.0| <= room && r.1 <= |s|
    ensures r.0 == [] <==> room == 0 || ScanInt(s).None?
    ensures r.0 != [] ==> r.0[0] == ScanInt(s).value.value && r.1 >= ScanInt(s).value.end
    decreases room
  {
    if room == 0 then ([], 0)
    else match ScanInt(s)
      case None => ([], 0)
      case Some(Scanned(v, e)) =>
        if room > 1 && e < |s| && s[e] == ',' then
          var (vs, n) := Operands(s[e + 1..], room - 1);
          if vs == [] then ([v], e) else ([v] + vs, e + 1 + n)
        else ([v], e)
  }

  /* ----- one line --------------------------------------------------------- */

  /** What `tas_parse_line` returns. */
  datatype Parsed =
    | InstrLine(opcode: nat, operands: seq<int>)
    | PseudoLine(pseudo: nat, text: string)
    | Failed(message: string)
    | Eof

  /** The first word of the line, upper-cased: the mnemonic. */
  function Mnemonic(s: string): string {
    var a := SkipBlanks(s, 0);
    UpperStr(s[a..WordEnd(s, a)])
  }

  /** Where the operands start: after the first word and the blanks behind it. */
  function OperandStart(s: string): (c: nat)
    ensures c <= |s|
  {
    SkipBlanks(s, WordEnd(s, SkipBlanks(s, 0)))
  }

  /** The line is skipped: no first word, or one starting with '#'. */
  predicate Skipped(s: string) {
    var name := Mnemonic(s);
    name == [] || name[0] == '#' || name[0] == '\n'
  }

  /**
   * One line without its '\n': none for a skipped line, otherwise what it
   * holds.  An instruction carries one to three operands, after which only
   * blanks or a '#' comment may follow.
   */
  function ParseText(s: string): (r: Option<Parsed>)
    ensures r.None? <==> Skipped(s)
    ensures r.Some? && r.value.InstrLine? ==>
      OpcodeOf(Mnemonic(s)) == r.value.opcode && 1 <= |r.value.operands| <= 3
    ensures r.Some? && r.value.PseudoLine? ==>
      Mnemonic(s)[0] == '.' && r.value.pseudo < |PseudoNames| && PseudoNames[r.value.pseudo] == Mnemonic(s)[1..]
    ensures r.Some? ==> r.value.InstrLine? || r.value.PseudoLine? || r.value.Failed?
  {
    var name := Mnemonic(s);
    var rest := s[OperandStart(s)..];
    if Skipped(s) then None
    else if name[0] == '.' then
      var k := PseudoOf(name[1..]);
      if k == -1 then Some(Failed("unrecognized pseudo operation name"))
      else Some(PseudoLine(k, rest))
    else
      var op := OpcodeOf(name);
      if op == -1 then Some(Failed("unrecognized operation name"))
      else
        var (vs, end) := Operands(rest, 3);
        if vs == [] then Some(Failed("illegal operands"))
        else
          var after := SkipBlanks(rest, end);
          if after < |rest| && rest[after] != '#' then Some(Failed("unexpected trailing junk"))
          else Some(InstrLine(op, vs))
  }

  /**
   * The lines `tas_parse_line` reads for one result and what it returns:
   * skipped lines are passed over, an empty read is the end of input, and
   * a line without its '\n' did not fit the buffer.
   */
  function NextLine(input: seq<string>): (r: (Parsed, nat))
    ensures r.1 <= |input|
    ensures r.0.Eof? ==> r.1 == |input| || |input[r.1]| == 0
    ensures !r.0.Eof? ==> 1 <= r.1
  {
    if |input| == 0 || |input[0]| == 0 then (Eof, 0)
    else
      var line := input[0];
      if line[|line| - 1] != '\n' then (Failed("the line is too long"), 1)
      else match ParseText(line[..|line| - 1])
        case Some(p) => (p, 1)
        case None =>
          var (p, n) := NextLine(input[1..]);
          (p, n + 1)
  }

  /* ----- the reader ------------------------------------------------------- */

  /**
   * What `tas_record_error` writes into the line buffer: the line number
   * and the message, formatted by `Text`.
   */
  datatype ErrorNote = ErrorNote(line: nat, message: string) {
    /** "line N: " and the message. */
    function Text(): string {
      "line " + Numerals.DecimalText(line) + ": " + message
    }
  }

  /**
   * `struct tas_context` as far as the line reader uses it: the lines still
   * to be read, the line number, and the error last recorded in the line
   * buffer.
   */
  class TasReader {
    var input: seq<string>
    var lineNumber: nat
    var error: ErrorNote

    constructor(input: seq<string>)
      ensures this.input == input && lineNumber == 0 && error == ErrorNote(0, [])
    {
      this.input := input;
      lineNumber := 0;
      error := ErrorNote(0, []);
    }

    /**
     * `tas_parse_line`: reads lines until one that is not skipped, counts
     * them, and on an error records the message with the line number.
     */
    method ParseLine() returns (r: Parsed)
      modifies this
      ensures r == NextLine(old(input)).0
      ensures input == old(input)[NextLine(old(input)).1..]
      ensures lineNumber == old(lineNumber) + NextLine(old(input)).1
      ensures r.Failed? ==> error == ErrorNote(lineNumber, r.message)
      ensures !r.Failed? ==> error == old(error)
    {
      ghost var start := input;
      ghost var read := 0;
      while true
        invariant read <= |start| && input == start[read..]
        invariant lineNumber == old(lineNumber) + read && error == old(error)
        invariant NextLine(start).0 == NextLine(input).0
        invariant NextLine(start).1 == read + NextLine(input).1
        decreases |input|
      {
        if |input| == 0 || |input[0]| == 0 {
          assert NextLine(input) == (Eof, 0);
          return Eof;
        }
        ghost var here := input;
        var line := input[0];
        input := input[1..];
        assert input == start[read + 1..];
        read := read + 1;
        lineNumber := lineNumber + 1;
        if line[|line| - 1] != '\n' {
          r := Failed("the line is too long");
          assert NextLine(here) == (r, 1);
          error := ErrorNote(lineNumber, r.message);
          return;
        }
        var parsed := ParseText(line[..|line| - 1]);
        if parsed.Some? {
          r := parsed.value;
          assert NextLine(here) == (r, 1);
          if r.Failed? {
            error := ErrorNote(lineNumber, r.message);
          }
          return;
        }
        NextLineSkips(here);
      }
    }
  }

  /* ----- properties ------------------------------------------------------- */

  /**
   * `num` is the decimal numeral of `n` as `str` prints it: decimal digits,
   * with a leading '0' only in "0" itself.
   */
  predicate DecimalNumeral(num: string, n: nat) {
    && |num| >= 1
    && (forall q :: 0 <= q < |num| ==> 0 <= Numerals.CharDigit(num[q]) < 10)
    && (num[0] == '0' ==> num == "0")
    && Numerals.TextValue(num, 10) == n
  }

  /** `t` is the decimal text of `v` as `str` prints it. */
  predicate DecimalOf(t: string, v: int) {
    if v < 0 then |t| >= 1 && t[0] == '-' && DecimalNumeral(t[1..], -v)
    else DecimalNumeral(t, v)
  }

  lemma NumeralIsDecimal(n: nat)
    ensures DecimalNumeral(Numerals.Numeral(n, 10, false), n)
  {
    var num := Numerals.Numeral(n, 10, false);
    var ds := Numerals.Digits(n, 10);
    assert num[0] == Numerals.DigitChar(ds[0], false);
    if num[0] == '0' {
      assert |ds| == 1;
      assert Numerals.Value(ds, 10) == Numerals.Value(ds[..0], 10) * 10 + ds[0];
      assert ds[..0] == [];
    }
    Numerals.NumeralValue(n, 10, false);
  }

  lemma DecimalTextIs(v: int)
    ensures DecimalOf(Numerals.DecimalText(v), v)
  {
    var t := Numerals.DecimalText(v);
    if v < 0 {
      NumeralIsDecimal(-v);
      assert t[1..] == Numerals.Numeral(-v, 10, false);
    } else {
      NumeralIsDecimal(v);
    }
  }

  /** A decimal numeral followed by a non-digit is read back whole. */
  lemma ScanNumeral(s: string, k: nat, num: string, n: nat, neg: bool)
    requires DecimalNumeral(num, n)
    requires k + |num| <= |s| && s[k..k + |num|] == num
    requires k + |num| == |s| || Numerals.CharDigit(s[k + |num|]) == -1
    ensures var m: int := n; ScanDigits(s, k, neg) == Some(Scanned(if neg then -m else m, k + |num|))
  {
    var e := k + |num|;
    forall q | k <= q < e
      ensures 0 <= Numerals.CharDigit(s[q]) < 10
    {
      assert s[q] == num[q - k];
    }
    assert s[k] == num[0];
    if num[0] == '0' {
      ZeroValue(num);
      ScanZero(s, k, neg);
    } else {
      ScanDecimalRun(s, k, e, neg);
      RunValueText(s, k, e, 10);
    }
  }

  /** A lone '0' is read as zero, in octal. */
  lemma ScanZero(s: string, k: nat, neg: bool)
    requires k < |s| && s[k] == '0'
    requires k + 1 == |s| || Numerals.CharDigit(s[k + 1]) == -1
    ensures ScanDigits(s, k, neg) == Some(Scanned(0, k + 1))
  {
    assert k + 1 < |s| ==> s[k + 1] != 'x' && s[k + 1] != 'X';
    DigitRunEnds(s, k, 8, k + 1);
    assert RunValue(s, k, k + 1, 8) == RunValue(s, k, k, 8) * 8 + 0;
  }

  /** "0" is zero. */
  lemma ZeroValue(z: string)
    requires z == "0"
    ensures Numerals.TextValue(z, 10) == 0
  {
    assert z[..0] == [];
  }

  /** On digits, `RunValue` is the value the digit text denotes. */
  lemma {:induction false} RunValueText(s: string, i: nat, e: nat, base: Numerals.Base)
    requires i <= e <= |s| && forall k :: i <= k < e ==> 0 <= Numerals.CharDigit(s[k]) < base
    ensures RunValue(s, i, e, base) == Numerals.TextValue(s[i..e], base)
    decreases e - i
  {
    if i < e {
      RunValueText(s, i, e - 1, base);
      assert s[i..e][..e - 1 - i] == s[i..e - 1];
    }
  }

  /** Decimal digits not starting with '0' are read as a decimal number. */
  lemma ScanDecimalRun(s: string, k: nat, e: nat, neg: bool)
    requires k < e <= |s| && s[k] != '0'
    requires forall q :: k <= q < e ==> 0 <= Numerals.CharDigit(s[q]) < 10
    requires e == |s| || Numerals.CharDigit(s[e]) == -1
    ensures ScanDigits(s, k, neg) == Some(Scanned(Signed(s, k, e, 10, neg), e))
  {
    DigitRunEnds(s, k, 10, e);
  }

  /** A decimal text followed by a non-digit: `%i` reads back its value. */
  lemma ScanDecimal(t: string, rest: string, v: int)
    requires DecimalOf(t, v)
    requires rest == [] || Numerals.CharDigit(rest[0]) == -1
    ensures ScanInt(t + rest) == Some(Scanned(v, |t|))
  {
    var s := t + rest;
    var e := |t|;
    assert s[0..e] == t;
    assert e == |s| || s[e] == rest[0];
    assert s[0] == t[0];
    if v < 0 {
      assert s[1..e] == t[1..];
      assert SkipSpaces(s, 0) == 0;
      assert ScanInt(s) == ScanDigits(s, 1, true);
      ScanNumeral(s, 1, t[1..], -v, true);
    } else {
      assert 0 <= Numerals.CharDigit(s[0]) < 10;
      assert SkipSpaces(s, 0) == 0 && s[0] != '-' && s[0] != '+';
      assert ScanInt(s) == ScanDigits(s, 0, false);
      ScanNumeral(s, 0, t, v, false);
    }
  }

  /** A run of digits that ends where a non-digit (or the end) is. */
  lemma DigitRunEnds(s: string, i: nat, base: Numerals.Base, e: nat)
    requires i <= e <= |s|
    requires forall q :: i <= q < e ==> 0 <= Numerals.CharDigit(s[q]) < base
    requires e == |s| || Numerals.CharDigit(s[e]) == -1
    ensures DigitRun(s, i, base) == e
    decreases e - i
  {
    if i < e {
      DigitRunEnds(s, i + 1, base, e);
    }
  }

  /** The texts with ',' between them. */
  function Commas(ts: seq<string>): string
    requires |ts| >= 1
  {
    if |ts| == 1 then ts[0] else ts[0] + "," + Commas(ts[1..])
  }

  /** Each operand printed in decimal. */
  function Printed(ops: seq<int>): (ts: seq<string>)
    ensures |ts| == |ops|
    ensures forall k :: 0 <= k < |ops| ==> ts[k] == Numerals.DecimalText(ops[k])
  {
    seq(|ops|, k requires 0 <= k < |ops| => Numerals.DecimalText(ops[k]))
  }

  /** The operands printed in decimal with ',' between them. */
  function Joined(ops: seq<int>): string
    requires |ops| >= 1
  {
    Commas(Printed(ops))
  }

  /** `ts` are decimal texts of `ops`, one each. */
  predicate TextsOf(ts: seq<string>, ops: seq<int>) {
    |ts| == |ops| && forall k :: 0 <= k < |ts| ==> DecimalOf(ts[k], ops[k])
  }

  /**
   * `%i` reads `ops` one after the other from the start of `s`, each but
   * the last followed by a ',', and the last one ends the text.
   */
  predicate ScansAs(s: string, ops: seq<int>)
    decreases |ops|
  {
    && |ops| >= 1
    && ScanInt(s).Some?
    && ScanInt(s).value.value == ops[0]
    && var e := ScanInt(s).value.end;
      if |ops| == 1 then e == |s|
      else e < |s| && s[e] == ',' && ScansAs(s[e + 1..], ops[1..])
  }

  /** Decimal texts with ',' between them are read one after the other. */
  lemma {:induction false} CommasScan(ts: seq<string>, ops: seq<int>)
    requires 1 <= |ops| && TextsOf(ts, ops)
    ensures ScansAs(Commas(ts), ops)
    decreases |ops|
  {
    var t := ts[0];
    assert DecimalOf(t, ops[0]);
    if |ops| == 1 {
      ScanDecimal(t, [], ops[0]);
      assert t + [] == t == Commas(ts);
      ScansLast(t, ops);
    } else {
      var tail := Commas(ts[1..]);
      var s := Commas(ts);
      assert s == t + ("," + tail);
      ScanDecimal(t, "," + tail, ops[0]);
      assert TextsOf(ts[1..], ops[1..]) by {
        forall k | 0 <= k < |ts| - 1
          ensures DecimalOf(ts[1..][k], ops[1..][k])
        {
          assert DecimalOf(ts[k + 1], ops[k + 1]);
        }
      }
      CommasScan(ts[1..], ops[1..]);
      assert s[|t| + 1..] == tail;
      ScansNext(s, |t|, ops);
    }
  }

  lemma ScansLast(s: string, ops: seq<int>)
    requires |ops| == 1 && ScanInt(s) == Some(Scanned(ops[0], |s|))
    ensures ScansAs(s, ops)
  {
  }

  lemma ScansNext(s: string, e: nat, ops: seq<int>)
    requires |ops| >= 2 && ScanInt(s) == Some(Scanned(ops[0], e))
    requires e < |s| && s[e] == ',' && ScansAs(s[e + 1..], ops[1..])
    ensures ScansAs(s, ops)
  {
  }

  /** `sscanf` converts every operand that is read, up to the room it has. */
  lemma {:induction false} OperandsOfScans(s: string, ops: seq<int>, room: nat)
    requires |ops| <= room && ScansAs(s, ops)
    ensures Operands(s, room) == (ops, |s|)
    decreases |ops|
  {
    var e := ScanInt(s).value.end;
    if |ops| > 1 {
      OperandsOfScans(s[e + 1..], ops[1..], room - 1);
      OperandsNext(s, e, room, ops);
    } else {
      OperandsLast(s, room, ops);
    }
  }

  lemma OperandsLast(s: string, room: nat, ops: seq<int>)
    requires room >= 1 && |ops| == 1 && ScanInt(s) == Some(Scanned(ops[0], |s|))
    ensures Operands(s, room) == (ops, |s|)
  {
    assert ops == [ops[0]];
  }

  lemma OperandsNext(s: string, e: nat, room: nat, ops: seq<int>)
    requires room >= 2 && |ops| >= 2 && ScanInt(s) == Some(Scanned(ops[0], e))
    requires e < |s| && s[e] == ','
    requires Operands(s[e + 1..], room - 1) == (ops[1..], |s[e + 1..]|)
    ensures Operands(s, room) == (ops, |s|)
  {
    assert [ops[0]] + ops[1..] == ops;
  }

  /** The printed operands are decimal texts of them. */
  lemma PrintedTexts(ops: seq<int>)
    ensures TextsOf(Printed(ops), ops)
  {
    forall k | 0 <= k < |ops|
      ensures DecimalOf(Printed(ops)[k], ops[k])
    {
      DecimalTextIs(ops[k]);
    }
  }

  /** `sscanf` reads back all the printed operands, up to the room it has. */
  lemma OperandsOfJoined(ops: seq<int>, room: nat)
    requires 1 <= |ops| <= room
    ensures Operands(Joined(ops), room) == (ops, |Joined(ops)|)
  {
    PrintedTexts(ops);
    CommasScan(Printed(ops), ops);
    OperandsOfScans(Joined(ops), ops, room);
  }

  /**
   * Round trip: a line made of a known mnemonic (in any case), a blank and
   * one to three operands printed in decimal with commas between them
   * reads back as that instruction with those operands.
   */
  lemma InstrLineRoundTrip(name: string, ops: seq<int>)
    requires |name| >= 1 && forall k :: 0 <= k < |name| ==> !IsBlank(name[k])
    requires UpperChar(name[0]) != '.' && UpperChar(name[0]) != '#' && UpperChar(name[0]) != '\n'
    requires OpcodeOf(UpperStr(name)) != -1
    requires 1 <= |ops| <= 3
    ensures ParseText(name + " " + Joined(ops)) == Some(InstrLine(OpcodeOf(UpperStr(name)), ops))
  {
    var j := Joined(ops);
    var s := name + " " + j;
    assert Mnemonic(s) == UpperStr(name) && s[OperandStart(s)..] == j by {
      JoinedStart(ops);
      FirstWord(name, j);
    }
    assert Operands(j, 3) == (ops, |j|) by {
      OperandsOfJoined(ops, 3);
    }
    InstrLineOf(s);
  }

  /**
   * A line with a known mnemonic whose operands run to its end is that
   * instruction with those operands.
   */
  lemma InstrLineOf(s: string)
    requires !Skipped(s) && Mnemonic(s)[0] != '.' && OpcodeOf(Mnemonic(s)) != -1
    requires var rest := s[OperandStart(s)..];
      Operands(rest, 3).0 != [] && Operands(rest, 3).1 == |rest|
    ensures ParseText(s) == Some(InstrLine(OpcodeOf(Mnemonic(s)), Operands(s[OperandStart(s)..], 3).0))
  {
    var rest := s[OperandStart(s)..];
    assert SkipBlanks(rest, |rest|) == |rest|;
  }

  /** The first word of `name + " " + rest` is `name`, and `rest` follows it. */
  lemma FirstWord(name: string, rest: string)
    requires |name| >= 1 && forall k :: 0 <= k < |name| ==> !IsBlank(name[k])
    requires |rest| >= 1 && !IsBlank(rest[0])
    ensures Mnemonic(name + " " + rest) == UpperStr(name)
    ensures OperandStart(name + " " + rest) == |name| + 1
  {
    var s := name + " " + rest;
    assert SkipBlanks(s, 0) == 0 by {
      assert s[0] == name[0];
    }
    WordEndAt(s, 0, |name|);
    assert s[0..|name|] == name;
    assert SkipBlanks(s, |name|) == |name| + 1 by {
      assert s[|name|] == ' ' && s[|name| + 1] == rest[0];
    }
  }

  /** The first word of `name + " " + ...` is `name`. */
  lemma WordEndAt(s: string, i: nat, e: nat)
    requires i <= e < |s| && IsBlank(s[e])
    requires forall k :: i <= k < e ==> !IsBlank(s[k])
    ensures WordEnd(s, i) == e
    decreases e - i
  {
    if i < e {
      WordEndAt(s, i + 1, e);
    }
  }

  /** The printed operands start with a sign or a digit, never a blank. */
  lemma JoinedStart(ops: seq<int>)
    requires |ops| >= 1
    ensures |Joined(ops)| >= 1 && !IsBlank(Joined(ops)[0])
  {
    PrintedTexts(ops);
    CommasStart(Printed(ops), ops);
  }

  lemma CommasStart(ts: seq<string>, ops: seq<int>)
    requires |ops| >= 1 && TextsOf(ts, ops)
    ensures |Commas(ts)| >= 1 && !IsBlank(Commas(ts)[0])
  {
    var t := ts[0];
    assert DecimalOf(t, ops[0]);
    if ops[0] >= 0 {
      assert 0 <= Numerals.CharDigit(t[0]) < 10;
    }
    assert Commas(ts)[0] == t[0];
  }

  /**
   * Anything but blanks or a '#' comment after the operands makes an
   * otherwise good instruction line an error.
   */
  lemma TrailingJunkFails(s: string)
    requires !Skipped(s) && Mnemonic(s)[0] != '.' && OpcodeOf(Mnemonic(s)) != -1
    requires Operands(s[OperandStart(s)..], 3).0 != []
    requires var rest := s[OperandStart(s)..];
      var after := SkipBlanks(rest, Operands(rest, 3).1);
      after < |rest| && rest[after] != '#'
    ensures ParseText(s) == Some(Failed("unexpected trailing junk"))
  {
  }

  /** Each line a result is read from counts once in the line number. */
  lemma NextLineSkips(input: seq<string>)
    requires |input| >= 1 && |input[0]| >= 1 && input[0][|input[0]| - 1] == '\n'
    requires Skipped(input[0][..|input[0]| - 1])
    ensures NextLine(input) == (NextLine(input[1..]).0, NextLine(input[1..]).1 + 1)
  {
  }
}
