/**
 * Positional numerals: the digits of a natural number in a base from 2 to 36,
 * the characters '0'-'9' and 'a'-'z' (or 'A'-'Z') that spell them, and the
 * value a digit string denotes.  Shared by the integer-to-text conversions
 * of the runtime and the debugger pretty-printer.
 */
module Numerals {

  type Base = b: nat | 2 <= b <= 36 witness 10

  /** The value of a most-significant-first digit sequence. */
  function Value(ds: seq<nat>, base: Base): nat {
    if ds == [] then 0 else Value(ds[..|ds| - 1], base) * base + ds[|ds| - 1]
  }

  predicate DigitsBelow(ds: seq<nat>, base: Base) {
    forall i :: 0 <= i < |ds| ==> ds[i] < base
  }

  /** The shortest digit sequence of `n` ("0" has the single digit 0). */
  function Digits(n: nat, base: Base): (ds: seq<nat>)
    ensures |ds| >= 1 && DigitsBelow(ds, base)
    ensures |ds| > 1 ==> ds[0] != 0
    ensures Value(ds, base) == n
    decreases n
  {
    if n < base then
      assert [n][..0] == [];
      [n]
    else
      DivModParts(n, base);
      var ds := Digits(n / base, base);
      AppendDigit(ds, n % base, base);
      ds + [n % base]
  }

  /** Appending a digit multiplies the value by the base and adds the digit. */
  lemma AppendDigit(ds: seq<nat>, d: nat, base: Base)
    requires DigitsBelow(ds, base) && d < base && |ds| >= 1
    ensures DigitsBelow(ds + [d], base)
    ensures (ds + [d])[0] == ds[0]
    ensures Value(ds + [d], base) == Value(ds, base) * base + d
  {
    assert (ds + [d])[..|ds|] == ds;
  }

  /** `n` is `base` times its quotient plus its remainder. */
  lemma DivModParts(n: nat, base: Base)
    requires n >= base
    ensures n / base >= 1 && n / base < n
    ensures (n / base) * base + n % base == n && n % base < base
  {
  }

  /** The character of digit `d`: '0'-'9', then letters, lower or upper case. */
  function DigitChar(d: nat, upper: bool): (c: char)
    requires d < 36
  {
    if d < 10 then ('0' as int + d) as char
    else if upper then ('A' as int + d - 10) as char
    else ('a' as int + d - 10) as char
  }

  /** The digit a character spells, as in `zis_char_digit`: letters of either case count from 10. */
  function CharDigit(c: char): (d: int)
    ensures -1 <= d < 36
  {
    if '0' <= c <= '9' then c as int - '0' as int
    else if 'a' <= c <= 'z' then c as int - 'a' as int + 10
    else if 'A' <= c <= 'Z' then c as int - 'A' as int + 10
    else -1
  }

  lemma CharDigitOfDigitChar(d: nat, upper: bool)
    requires d < 36
    ensures CharDigit(DigitChar(d, upper)) == d
  {
  }

  function Spell(ds: seq<nat>, upper: bool): (s: string)
    requires DigitsBelow(ds, 36)
    ensures |s| == |ds|
    ensures forall i :: 0 <= i < |s| ==> s[i] == DigitChar(ds[i], upper)
  {
    if ds == [] then [] else Spell(ds[..|ds| - 1], upper) + [DigitChar(ds[|ds| - 1], upper)]
  }

  /** The value a string of digit characters spells in `base`. */
  function TextValue(s: string, base: Base): nat
    requires forall i :: 0 <= i < |s| ==> 0 <= CharDigit(s[i]) < base
  {
    if s == [] then 0 else TextValue(s[..|s| - 1], base) * base + CharDigit(s[|s| - 1])
  }

  /** The numeral of `n` in `base`, without sign or prefix. */
  function Numeral(n: nat, base: Base, upper: bool): (s: string)
    ensures |s| >= 1
    ensures forall i :: 0 <= i < |s| ==> 0 <= CharDigit(s[i]) < base
  {
    var ds := Digits(n, base);
    var s := Spell(ds, upper);
    forall i | 0 <= i < |s| ensures 0 <= CharDigit(s[i]) < base {
      CharDigitOfDigitChar(ds[i], upper);
    }
    s
  }

  lemma {:induction false} SpellValue(ds: seq<nat>, base: Base, upper: bool)
    requires DigitsBelow(ds, base)
    ensures forall i :: 0 <= i < |Spell(ds, upper)| ==> 0 <= CharDigit(Spell(ds, upper)[i]) < base
    ensures TextValue(Spell(ds, upper), base) == Value(ds, base)
  {
    var s := Spell(ds, upper);
    forall i | 0 <= i < |s| ensures 0 <= CharDigit(s[i]) < base {
      CharDigitOfDigitChar(ds[i], upper);
    }
    if ds != [] {
      var init := ds[..|ds| - 1];
      SpellValue(init, base, upper);
      assert s[..|s| - 1] == Spell(init, upper);
      CharDigitOfDigitChar(ds[|ds| - 1], upper);
    }
  }

  /** Reading a numeral back gives the number it was made from. */
  lemma NumeralValue(n: nat, base: Base, upper: bool)
    ensures TextValue(Numeral(n, base, upper), base) == n
  {
    SpellValue(Digits(n, base), base, upper);
  }

  /** Python's `str(v)` for an integer: decimal digits with a leading '-' for negatives. */
  function DecimalText(v: int): (s: string)
    ensures |s| >= 1
    ensures v < 0 <==> s[0] == '-'
  {
    if v < 0 then "-" + Numeral(-v, 10, false) else Numeral(v, 10, false)
  }

  /** Python's `hex(n)` (and `'{:#x}'.format(n)`) for a natural number: "0x" and lower-case digits. */
  function HexText(n: nat): (s: string)
    ensures |s| >= 3 && s[..2] == "0x"
    ensures forall i :: 2 <= i < |s| ==> 0 <= CharDigit(s[i]) < 16
    ensures TextValue(s[2..], 16) == n
  {
    NumeralValue(n, 16, false);
    assert ("0x" + Numeral(n, 16, false))[2..] == Numeral(n, 16, false);
    "0x" + Numeral(n, 16, false)
  }
}
