/**
 * Bytecode instruction words (`zis_instr_word_t`, a `uint32_t`): a 7-bit
 * opcode in bits 0..6 and operand fields above it.
 *
 *   Aw / Asw     A in bits 7..31 (unsigned / signed 25 bits)
 *   ABw / ABsw   A in bits 7..15 (9 bits), B in bits 16..31 (unsigned / signed)
 *   ABC / ABsCs  A in bits 7..15, B in bits 16..23, C in bits 24..31
 *
 * Words and operands are kept as 32-bit vectors; a signed operand is the bit
 * pattern of its `int32_t` value, and "in the signed n-bit range" is stated on
 * those bits (a sign-extended n-bit value).  The bit-vector facts are proved
 * in lemmas that mention no function, which keeps the solver on pure
 * bit-vector reasoning; the round-trip lemmas then unfold the macros.
 */
module Instr {

  type Word = bv32

  /** Every opcode of the opcode list fits in the 7-bit field. */
  type Opcode = x: Word | x < 128

  /** ZIS_INSTR_U25_MAX, ZIS_INSTR_U16_MAX, ZIS_INSTR_U9_MAX, ZIS_INSTR_U8_MAX. */
  const U25Max: Word := 0x1ff_ffff
  const U16Max: Word := 0xffff
  const U9Max: Word := 0x1ff
  const U8Max: Word := 0xff

  /** The `int32_t` bits lie in [ZIS_INSTR_I25_MIN, ZIS_INSTR_I25_MAX] = [-2^24, 2^24 - 1]. */
  predicate InI25(a: Word) {
    a <= 0xff_ffff || a >= 0xff00_0000
  }

  /** The `int32_t` bits lie in [ZIS_INSTR_I16_MIN, ZIS_INSTR_I16_MAX] = [-2^15, 2^15 - 1]. */
  predicate InI16(a: Word) {
    a <= 0x7fff || a >= 0xffff_8000
  }

  /** The `int32_t` bits lie in [ZIS_INSTR_I8_MIN, ZIS_INSTR_I8_MAX] = [-2^7, 2^7 - 1]. */
  predicate InI8(a: Word) {
    a <= 0x7f || a >= 0xffff_ff80
  }

  /*
   * `(int32_t)x >> k` for the three shift amounts the extractors use: the
   * right shift that copies the sign bit into the vacated high bits.
   */
  function Sar7(x: Word): Word {
    if x & 0x8000_0000 == 0 then x >> 7 else (x >> 7) | !(0xffff_ffff >> 7)
  }

  function Sar16(x: Word): Word {
    if x & 0x8000_0000 == 0 then x >> 16 else (x >> 16) | !(0xffff_ffff >> 16)
  }

  function Sar24(x: Word): Word {
    if x & 0x8000_0000 == 0 then x >> 24 else (x >> 24) | !(0xffff_ffff >> 24)
  }

  /** `zis_instr_make_Aw`. */
  function MakeAw(op: Opcode, a: Word): Word {
    op | (a << 7)
  }

  /** `zis_instr_make_Asw`: the same layout, `a` being the bits of an `int32_t`. */
  function MakeAsw(op: Opcode, a: Word): Word {
    op | (a << 7)
  }

  /** `zis_instr_make_ABw`. */
  function MakeABw(op: Opcode, a: Word, b: Word): Word {
    op | ((a & 0x1ff) << 7) | (b << 16)
  }

  /** `zis_instr_make_ABsw`. */
  function MakeABsw(op: Opcode, a: Word, b: Word): Word {
    op | ((a & 0x1ff) << 7) | (b << 16)
  }

  /** `zis_instr_make_ABC`. */
  function MakeABC(op: Opcode, a: Word, b: Word, c: Word): Word {
    op | ((a & 0x1ff) << 7) | ((b & 0xff) << 16) | (c << 24)
  }

  /** `zis_instr_make_ABsCs`. */
  function MakeABsCs(op: Opcode, a: Word, b: Word, c: Word): Word {
    op | ((a & 0x1ff) << 7) | ((b & 0xff) << 16) | (c << 24)
  }

  /** `zis_instr_extract_opcode`. */
  function ExtractOpcode(i: Word): Word {
    i & 0x7f
  }

  /** `zis_instr_extract_operands_Aw`. */
  function ExtractAw(i: Word): Word {
    i >> 7
  }

  /** `zis_instr_extract_operands_Asw`. */
  function ExtractAsw(i: Word): Word {
    Sar7(i)
  }

  /** `zis_instr_extract_operands_ABw`. */
  function ExtractABw(i: Word): (Word, Word) {
    ((i >> 7) & 0x1ff, i >> 16)
  }

  /** `zis_instr_extract_operands_ABsw`. */
  function ExtractABsw(i: Word): (Word, Word) {
    ((i >> 7) & 0x1ff, Sar16(i))
  }

  /** `zis_instr_extract_operands_ABC`. */
  function ExtractABC(i: Word): (Word, Word, Word) {
    ((i >> 7) & 0x1ff, (i >> 16) & 0xff, i >> 24)
  }

  /** `zis_instr_extract_operands_ABsCs`. */
  function ExtractABsCs(i: Word): (Word, Word, Word) {
    ((i >> 7) & 0x1ff, Sar24(i << 8), Sar24(i))
  }

  /* ----- bit-vector facts, stated on the raw expressions ----- */

  lemma AwBits(op: Word, a: Word)
    requires op < 128
    ensures (op | (a << 7)) & 0x7f == op
    ensures a <= 0x1ff_ffff ==> (op | (a << 7)) >> 7 == a
  {
  }

  lemma AswBits(op: Word, a: Word)
    requires op < 128 && (a <= 0xff_ffff || a >= 0xff00_0000)
    ensures var i := op | (a << 7);
            (if i & 0x8000_0000 == 0 then i >> 7 else (i >> 7) | !(0xffff_ffff >> 7)) == a
  {
  }

  lemma ABwBits(op: Word, a: Word, b: Word, i: Word)
    requires op < 128 && i == op | ((a & 0x1ff) << 7) | (b << 16)
    ensures i & 0x7f == op && (i >> 7) & 0x1ff == a & 0x1ff && i >> 16 == b & 0xffff
  {
  }

  lemma ABwExactBits(op: Word, a: Word, b: Word)
    requires op < 128 && a <= 0x1ff && b <= 0xffff
    ensures var i := op | ((a & 0x1ff) << 7) | (b << 16);
            i & 0x7f == op && (i >> 7) & 0x1ff == a && i >> 16 == b
  {
  }

  lemma ABswBits(op: Word, a: Word, b: Word)
    requires op < 128 && (b <= 0x7fff || b >= 0xffff_8000)
    ensures var i := op | ((a & 0x1ff) << 7) | (b << 16);
            (if i & 0x8000_0000 == 0 then i >> 16 else (i >> 16) | !(0xffff_ffff >> 16)) == b
  {
  }

  lemma ABCBits(op: Word, a: Word, b: Word, c: Word)
    requires op < 128
    ensures var i := op | ((a & 0x1ff) << 7) | ((b & 0xff) << 16) | (c << 24);
            i & 0x7f == op && (i >> 7) & 0x1ff == a & 0x1ff &&
            (i >> 16) & 0xff == b & 0xff && i >> 24 == c & 0xff
  {
  }

  lemma ABCExactBits(op: Word, a: Word, b: Word, c: Word)
    requires op < 128 && a <= 0x1ff && b <= 0xff && c <= 0xff
    ensures var i := op | ((a & 0x1ff) << 7) | ((b & 0xff) << 16) | (c << 24);
            i & 0x7f == op && (i >> 7) & 0x1ff == a && (i >> 16) & 0xff == b && i >> 24 == c
  {
  }

  lemma ABsCsABits(op: Word, a: Word, b: Word, c: Word)
    requires op < 128 && a <= 0x1ff
    ensures var i := op | ((a & 0x1ff) << 7) | ((b & 0xff) << 16) | (c << 24);
            i & 0x7f == op && (i >> 7) & 0x1ff == a
  {
  }

  lemma ABswABits(op: Word, a: Word, b: Word)
    requires op < 128 && a <= 0x1ff
    ensures var i := op | ((a & 0x1ff) << 7) | (b << 16);
            i & 0x7f == op && (i >> 7) & 0x1ff == a
  {
  }

  lemma ABsCsBBits(op: Word, a: Word, b: Word, c: Word)
    requires op < 128 && (b <= 0x7f || b >= 0xffff_ff80)
    ensures var i := (op | ((a & 0x1ff) << 7) | ((b & 0xff) << 16) | (c << 24)) << 8;
            (if i & 0x8000_0000 == 0 then i >> 24 else (i >> 24) | !(0xffff_ffff >> 24)) == b
  {
  }

  lemma ABsCsCBits(op: Word, a: Word, b: Word, c: Word)
    requires op < 128 && (c <= 0x7f || c >= 0xffff_ff80)
    ensures var i := op | ((a & 0x1ff) << 7) | ((b & 0xff) << 16) | (c << 24);
            (if i & 0x8000_0000 == 0 then i >> 24 else (i >> 24) | !(0xffff_ffff >> 24)) == c
  {
  }

  /* ----- round trips ----- */

  /** Aw: the opcode and an unsigned 25-bit A come back out. */
  lemma AwRoundTrip(op: Opcode, a: Word)
    requires a <= U25Max
    ensures ExtractOpcode(MakeAw(op, a)) == op
    ensures ExtractAw(MakeAw(op, a)) == a
  {
    AwBits(op, a);
  }

  /** Asw: a signed 25-bit A comes back out under the arithmetic shift. */
  lemma AswRoundTrip(op: Opcode, a: Word)
    requires InI25(a)
    ensures ExtractOpcode(MakeAsw(op, a)) == op
    ensures ExtractAsw(MakeAsw(op, a)) == a
  {
    AwBits(op, a);
    AswBits(op, a);
  }

  /** ABw: A up to U9_MAX and B up to U16_MAX come back out. */
  lemma ABwRoundTrip(op: Opcode, a: Word, b: Word)
    requires a <= U9Max && b <= U16Max
    ensures ExtractOpcode(MakeABw(op, a, b)) == op
    ensures ExtractABw(MakeABw(op, a, b)) == (a, b)
  {
    ABwExactBits(op, a, b);
  }

  /** ABsw: A up to U9_MAX and a signed 16-bit B come back out. */
  lemma ABswRoundTrip(op: Opcode, a: Word, b: Word)
    requires a <= U9Max && InI16(b)
    ensures ExtractOpcode(MakeABsw(op, a, b)) == op
    ensures ExtractABsw(MakeABsw(op, a, b)) == (a, b)
  {
    ABswABits(op, a, b);
    ABswBits(op, a, b);
  }

  /** ABC: A up to U9_MAX and B, C up to U8_MAX come back out. */
  lemma ABCRoundTrip(op: Opcode, a: Word, b: Word, c: Word)
    requires a <= U9Max && b <= U8Max && c <= U8Max
    ensures ExtractOpcode(MakeABC(op, a, b, c)) == op
    ensures ExtractABC(MakeABC(op, a, b, c)) == (a, b, c)
  {
    ABCExactBits(op, a, b, c);
  }

  /** ABsCs: A up to U9_MAX and signed 8-bit B and C come back out. */
  lemma ABsCsRoundTrip(op: Opcode, a: Word, b: Word, c: Word)
    requires a <= U9Max && InI8(b) && InI8(c)
    ensures ExtractOpcode(MakeABsCs(op, a, b, c)) == op
    ensures ExtractABsCs(MakeABsCs(op, a, b, c)) == (a, b, c)
  {
    ABsCsABits(op, a, b, c);
    ABsCsBBits(op, a, b, c);
    ABsCsCBits(op, a, b, c);
  }

  /** A is masked to 9 bits: whatever A is passed, the opcode and the B and C fields are intact. */
  lemma OversizedAInABC(op: Opcode, a: Word, b: Word, c: Word)
    ensures ExtractOpcode(MakeABC(op, a, b, c)) == op
    ensures ExtractABC(MakeABC(op, a, b, c)) == (a & 0x1ff, b & 0xff, c & 0xff)
  {
    ABCBits(op, a, b, c);
  }

  lemma OversizedAInABw(op: Opcode, a: Word, b: Word)
    ensures ExtractOpcode(MakeABw(op, a, b)) == op
    ensures ExtractABw(MakeABw(op, a, b)).0 == a & 0x1ff
    ensures ExtractABw(MakeABw(op, a, b)).1 == b & 0xffff
  {
    ABwBits(op, a, b, MakeABw(op, a, b));
  }
}
