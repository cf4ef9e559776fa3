/**
 * String objects of `core/stringobj.c`.
 *
 * A string holds a sequence of code points in one of three fixed-width
 * representations: 1, 2 or 4 bytes per character.  The representation and
 * the length share one word, `_type_and_length == len << 2 | char_type`.
 * A string never changes once built, so it is modelled as a value: its char
 * type and its code points.  The loops that build a string (`new`, `join`)
 * and the loops that convert one (`to_u8str`) are methods proved against
 * the functions below.
 */
module StringObj {
  import opened Wrappers
  import opened Strutil
  import opened Words
  import Algorithm
  import SmallInt

  /* ----- representation ------------------------------------------------- */

  /** `enum string_obj_char_type`: C1 = 0, C2 = 1, C4 = 3. */
  datatype CharType = C1 | C2 | C4

  /** The enumerator's value, stored in the low 2 bits of `_type_and_length`. */
  function Code(ct: CharType): (k: nat)
    ensures k <= 3 && k != 2
  {
    match ct
    case C1 => 0
    case C2 => 1
    case C4 => 3
  }

  /** `string_obj_char_size`: the enumerator plus one, in bytes. */
  function CharSize(ct: CharType): (n: nat)
    ensures n == Code(ct) + 1
    ensures n == 1 || n == 2 || n == 4
  {
    Code(ct) + 1
  }

  /** The largest value one character of the type can hold (`uint8_t` up to 0x7F, `uint16_t`, `uint32_t`). */
  function CodeMax(ct: CharType): nat {
    match ct
    case C1 => 0x7f
    case C2 => 0xffff
    case C4 => 0xffff_ffff
  }

  /** 256^n: the values `n` bytes can hold. */
  function Range(n: nat): (r: nat)
    ensures r >= 1
  {
    if n == 0 then 1 else 256 * Range(n - 1)
  }

  /** Character `c` can be stored in a character of type `ct`. */
  predicate Fits(c: nat, ct: CharType) {
    c <= CodeMax(ct)
  }

  /** `char_min_char_type`: the narrowest type that holds `c`. */
  function MinCharType(c: WChar): (ct: CharType)
    ensures Fits(c, ct)
    ensures forall t :: Fits(c, t) ==> Code(ct) <= Code(t)
  {
    if c <= 0x7f then C1
    else if c <= 0xffff then C2
    else C4
  }

  /** The wider of two char types: the comparison of their enumerators. */
  function Wider(a: CharType, b: CharType): (ct: CharType)
    ensures Code(ct) == if Code(a) < Code(b) then Code(b) else Code(a)
  {
    if Code(b) > Code(a) then b else a
  }

  /** A character of a narrower type fits a wider one. */
  lemma FitsWider(c: nat, a: CharType, b: CharType)
    requires Fits(c, a) && Code(a) <= Code(b)
    ensures Fits(c, b)
  {
  }

  /** A string object: its char type and its characters. */
  datatype Str = Str(ct: CharType, chars: seq<WChar>)

  /** Every character fits the string's char type. */
  predicate Valid(s: Str) {
    forall i :: 0 <= i < |s.chars| ==> Fits(s.chars[i], s.ct)
  }

  /** `val_empty_string`, made by `_zis_string_obj_new_empty`: C1 with no characters. */
  const Empty: Str := Str(C1, [])

  /* ----- the packed type-and-length word -------------------------------- */

  /** `string_obj_alloc`'s `(len << 2) | ct`. */
  function Pack(ct: CharType, len: nat): nat {
    len * 4 + Code(ct)
  }

  /** `string_obj_length`: the word shifted right by 2. */
  function LengthOf(v: nat): nat {
    v / 4
  }

  /** `string_obj_char_type`: the low 2 bits, which are never 2. */
  function CharTypeOf(v: nat): CharType
    requires v % 4 != 2
  {
    if v % 4 == 0 then C1 else if v % 4 == 1 then C2 else C4
  }

  /**
   * Packing round-trips through both accessors, and the packed word fits a
   * `size_t` exactly when the length passes `string_obj_alloc`'s check that
   * its top two bits are clear.
   */
  lemma PackRoundTrip(w: Width, ct: CharType, len: nat)
    ensures Pack(ct, len) % 4 != 2
    ensures LengthOf(Pack(ct, len)) == len
    ensures CharTypeOf(Pack(ct, len)) == ct
    ensures Pack(ct, len) < Modulus(w) <==> len < Modulus(w) / 4
  {
  }

  /* ----- the data bytes -------------------------------------------------- */

  /** Character `c` as `n` little-endian bytes, as it lies in the data area. */
  function LE(c: nat, n: nat): (r: seq<Byte>)
    ensures |r| == n
  {
    if n == 0 then [] else [c % 256] + LE(c / 256, n - 1)
  }

  /** Reads a little-endian number back. */
  function FromLE(bs: seq<Byte>): nat {
    if bs == [] then 0 else bs[0] + 256 * FromLE(bs[1..])
  }

  /** A number below 256^n reads back from its n bytes. */
  lemma {:induction false} FromLEOfLE(c: nat, n: nat)
    requires c < Range(n)
    ensures FromLE(LE(c, n)) == c
  {
    if n > 0 {
      var bs := LE(c, n);
      assert bs[1..] == LE(c / 256, n - 1);
      assert c / 256 < Range(n - 1);
      FromLEOfLE(c / 256, n - 1);
      assert FromLE(bs) == c % 256 + 256 * (c / 256);
    }
  }

  /** The data area of characters of `size` bytes each. */
  function Bytes(size: nat, cs: seq<WChar>): (r: seq<Byte>)
    ensures |r| == size * |cs|
  {
    if cs == [] then [] else LE(cs[0], size) + Bytes(size, cs[1..])
  }

  /** `string_obj_data`: the string's data area, `len * char_size` bytes. */
  function Data(s: Str): seq<Byte> {
    Bytes(CharSize(s.ct), s.chars)
  }

  /** A character that fits its type lies below 256^size. */
  lemma FitsRange(c: nat, ct: CharType)
    requires Fits(c, ct)
    ensures c < Range(CharSize(ct))
  {
    assert Range(1) == 256;
    assert Range(2) == 0x1_0000;
    assert Range(4) == 0x1_0000_0000 by {
      assert Range(3) == 0x100_0000;
    }
  }

  /** Two character sequences of one type with the same data bytes are equal. */
  lemma {:induction false} BytesInjective(ct: CharType, a: seq<WChar>, b: seq<WChar>)
    requires |a| == |b|
    requires forall i :: 0 <= i < |a| ==> Fits(a[i], ct)
    requires forall i :: 0 <= i < |b| ==> Fits(b[i], ct)
    requires Bytes(CharSize(ct), a) == Bytes(CharSize(ct), b)
    ensures a == b
  {
    if a != [] {
      var n := CharSize(ct);
      var ba, bb := Bytes(n, a), Bytes(n, b);
      assert ba[..n] == LE(a[0], n) && bb[..n] == LE(b[0], n);
      assert ba[n..] == Bytes(n, a[1..]) && bb[n..] == Bytes(n, b[1..]);
      FitsRange(a[0], ct);
      FitsRange(b[0], ct);
      FromLEOfLE(a[0], n);
      FromLEOfLE(b[0], n);
      assert forall i :: 0 <= i < |a[1..]| ==> a[1..][i] == a[i + 1];
      assert forall i :: 0 <= i < |b[1..]| ==> b[1..][i] == b[i + 1];
      BytesInjective(ct, a[1..], b[1..]);
      assert a == [a[0]] + a[1..] && b == [b[0]] + b[1..];
    }
  }

  /* ----- equality -------------------------------------------------------- */

  /** `zis_string_obj_equals`: same char type, same length, and `memcmp` finds the data equal. */
  function Equals(a: Str, b: Str): (r: bool)
    ensures Valid(a) && Valid(b) ==> (r <==> a == b)
  {
    var equal := a.ct == b.ct && |a.chars| == |b.chars| && Data(a) == Data(b);
    if equal && Valid(a) && Valid(b) then
      BytesInjective(a.ct, a.chars, b.chars);
      equal
    else
      equal
  }

  /* ----- construction from UTF-8 ----------------------------------------- */

  /**
   * The code points `zis_string_obj_new` reads from `s`: one
   * `zis_u8char_to_code` step after another up to the end, or `None` at the
   * first step that fails.
   */
  function Decode(s: seq<Byte>): (r: Option<seq<WChar>>)
    decreases |s|
  {
    if s == [] then Some([])
    else
      var (k, c) := ToCode(0, s);
      if k == 0 then None
      else
        match Decode(s[k..])
        case None => None
        case Some(cs) => Some([c] + cs)
  }

  /** The largest of the code points (0 for none), as `codepoint_max` tracks it. */
  function MaxOf(cs: seq<WChar>): (m: WChar)
    ensures forall i :: 0 <= i < |cs| ==> cs[i] <= m
    ensures cs != [] ==> exists i :: 0 <= i < |cs| && cs[i] == m
  {
    if cs == [] then 0
    else
      var m := MaxOf(cs[..|cs| - 1]);
      if cs[|cs| - 1] > m then cs[|cs| - 1] else m
  }

  /** Code points up to 0x1FFFFF, NUL included, decode back from their encoding. */
  lemma {:induction false} DecodeEncode(cs: seq<WChar>)
    requires forall i :: 0 <= i < |cs| ==> cs[i] <= MaxCode
    ensures Decode(Encode(cs)) == Some(cs)
  {
    if cs != [] {
      var e := Encode(cs);
      ToCodeFromCode(0, cs[0], Encode(cs[1..]));
      assert e[LenFromCode(cs[0])..] == Encode(cs[1..]);
      DecodeEncode(cs[1..]);
      assert cs == [cs[0]] + cs[1..];
    }
  }

  /** One successful decoding step: the first code point, then the rest. */
  lemma DecodeStep(t: seq<Byte>)
    requires t != [] && ToCode(0, t).0 != 0
    ensures Decode(t).Some? <==> Decode(t[ToCode(0, t).0..]).Some?
    ensures Decode(t).Some? ==> Decode(t).value == [ToCode(0, t).1] + Decode(t[ToCode(0, t).0..]).value
  {
  }

  /** Decoding never yields more code points than there are bytes. */
  lemma {:induction false} DecodeShorter(s: seq<Byte>)
    requires Decode(s).Some?
    ensures |Decode(s).value| <= |s|
  {
    if s != [] {
      DecodeStep(s);
      DecodeShorter(s[ToCode(0, s).0..]);
    }
  }

  /**
   * The characters `zis_string_obj_new` stores, as written: when the
   * largest code point is below 0x80 it copies the first `char_count`
   * input bytes instead of the decoded code points.
   */
  function StoredAsWritten(s: seq<Byte>): (d: seq<WChar>)
    requires Decode(s).Some?
    ensures |d| == |Decode(s).value|
  {
    var cs := Decode(s).value;
    DecodeShorter(s);
    if MaxOf(cs) < 0x80 then s[..|cs|] else cs
  }

  /**
   * The overlong encoding C0 80 of U+0000 decodes to one NUL, but the
   * string stored as written holds the byte 0xC0, which is neither that
   * character nor a valid C1 character.
   */
  lemma OverlongStoredAsWritten()
    ensures Decode([0xc0, 0x80]) == Some([0])
    ensures StoredAsWritten([0xc0, 0x80]) == [0xc0]
    ensures !Valid(Str(C1, StoredAsWritten([0xc0, 0x80])))
  {
    var s: seq<Byte> := [0xc0, 0x80];
    assert ToCode(0, s) == (2, 0);
    assert s[2..] == [];
    assert Decode(s[2..]) == Some([]);
    DecodeStep(s);
    var none: seq<WChar> := [];
    assert [0] + none == [0];
    assert MaxOf([0]) == 0;
  }

  /** On well-formed UTF-8 the byte copy agrees with the decoded characters. */
  lemma StoredAsWrittenOnEncoded(cs: seq<WChar>)
    requires forall i :: 0 <= i < |cs| ==> cs[i] <= MaxCode
    ensures Decode(Encode(cs)) == Some(cs)
    ensures StoredAsWritten(Encode(cs)) == cs
  {
    DecodeEncode(cs);
    if MaxOf(cs) < 0x80 {
      EncodeAscii(cs);
    }
  }

  /** The decoded code points, and the string built from them, fit the char type chosen from their maximum. */
  lemma MaxTypeValid(cs: seq<WChar>)
    ensures Valid(Str(MinCharType(MaxOf(cs)), cs))
  {
    var ct := MinCharType(MaxOf(cs));
    forall i | 0 <= i < |cs|
      ensures Fits(cs[i], ct)
    {
      assert cs[i] <= MaxOf(cs);
    }
  }

  lemma MaxOfSnoc(cs: seq<WChar>, c: WChar)
    ensures MaxOf(cs + [c]) == if c > MaxOf(cs) then c else MaxOf(cs)
  {
    assert (cs + [c])[..|cs|] == cs;
  }

  /**
   * The first `p` bytes of `s` decoded to `chars`: the whole of `s` decodes
   * exactly when the rest does, to `chars` followed by the rest's code points.
   */
  predicate DecodedUpTo(s: seq<Byte>, p: nat, chars: seq<WChar>)
    requires p <= |s|
  {
    (Decode(s[p..]).None? ==> Decode(s).None?) &&
    (Decode(s[p..]).Some? ==> Decode(s) == Some(chars + Decode(s[p..]).value))
  }

  lemma DecodedFromStart(s: seq<Byte>)
    ensures DecodedUpTo(s, 0, [])
  {
    assert s[0..] == s;
    if Decode(s).Some? {
      var none: seq<WChar> := [];
      assert none + Decode(s).value == Decode(s).value;
    }
  }

  lemma DecodedNext(s: seq<Byte>, p: nat, chars: seq<WChar>, k: nat, c: WChar)
    requires p < |s| && DecodedUpTo(s, p, chars) && ToCode(0, s[p..]) == (k, c) && k != 0
    ensures p + k <= |s|
    ensures DecodedUpTo(s, p + k, chars + [c])
  {
    DecodeStep(s[p..]);
    assert s[p..][k..] == s[p + k..];
    if Decode(s[p + k..]).Some? {
      var rest := Decode(s[p + k..]).value;
      assert chars + ([c] + rest) == (chars + [c]) + rest;
    }
  }

  lemma DecodeFails(s: seq<Byte>, p: nat, chars: seq<WChar>)
    requires p < |s| && DecodedUpTo(s, p, chars) && ToCode(0, s[p..]).0 == 0
    ensures Decode(s).None?
  {
  }

  lemma DecodedAll(s: seq<Byte>, p: nat, chars: seq<WChar>)
    requires p == |s| && DecodedUpTo(s, p, chars)
    ensures Decode(s) == Some(chars)
  {
    assert s[p..] == [];
    assert chars + [] == chars;
  }

  /**
   * `zis_string_obj_new` on the `n` bytes of `s`: the shared empty string
   * when `n` is 0, NULL when a character fails to decode, and otherwise the
   * decoded code points in the narrowest type that holds their maximum.
   * The copy pass re-decodes the same characters, so it is folded into the
   * counting loop; its byte-copy shortcut for ASCII is `StoredAsWritten`,
   * and this method stores the decoded characters in every case.
   */
  method New(s: seq<Byte>) returns (r: Option<Str>)
    ensures s == [] ==> r == Some(Empty)
    ensures r.None? <==> Decode(s).None?
    ensures r.Some? ==> r.value.chars == Decode(s).value && r.value.ct == MinCharType(MaxOf(r.value.chars))
    ensures r.Some? ==> Valid(r.value)
  {
    if |s| == 0 {
      return Some(Empty);
    }
    var ok, chars, max := Scan(s);
    if !ok {
      return None;
    }
    MaxTypeValid(chars);
    var ct := if max <= 0x7f then C1 else if max <= 0xffff then C2 else C4;
    return Some(Str(ct, chars));
  }

  /**
   * The counting loop of `zis_string_obj_new`: decodes character after
   * character up to the end, tracking the largest code point, and fails at
   * the first character `zis_u8char_to_code` rejects.  A step never passes
   * the end, so the check that the loop stopped exactly at the end always
   * passes and is left out.
   */
  method Scan(s: seq<Byte>) returns (ok: bool, chars: seq<WChar>, max: WChar)
    ensures ok <==> Decode(s).Some?
    ensures ok ==> Decode(s) == Some(chars) && max == MaxOf(chars)
  {
    max := 0;
    chars := [];
    var p := 0;
    DecodedFromStart(s);
    while p < |s|
      invariant p <= |s|
      invariant max == MaxOf(chars)
      invariant DecodedUpTo(s, p, chars)
      decreases |s| - p
    {
      var (k, c) := ToCode(0, s[p..]);
      if k == 0 {
        DecodeFails(s, p, chars);
        return false, chars, max;
      }
      DecodedNext(s, p, chars, k, c);
      MaxOfSnoc(chars, c);
      if c > max {
        max := c;
      }
      chars := chars + [c];
      p := p + k;
    }
    DecodedAll(s, p, chars);
    return true, chars, max;
  }

  /** `zis_string_obj_from_char`: a one-character string of the narrowest type. */
  function FromChar(c: WChar): (s: Str)
    ensures Valid(s) && s.chars == [c]
    ensures forall t :: Fits(c, t) ==> Code(s.ct) <= Code(t)
  {
    Str(MinCharType(c), [c])
  }

  /* ----- conversion to UTF-8 --------------------------------------------- */

  /** Characters `to_u8str` can encode: its assertion that every encoded length is non-zero. */
  predicate Encodes(s: Str) {
    forall i :: 0 <= i < |s.chars| ==> s.chars[i] <= MaxCode
  }

  lemma {:induction false} EncodeAppend(a: seq<WChar>, b: seq<WChar>)
    ensures Encode(a + b) == Encode(a) + Encode(b)
  {
    if a != [] {
      assert (a + b)[0] == a[0];
      assert (a + b)[1..] == a[1..] + b;
      EncodeAppend(a[1..], b);
      assert Encode(a + b) == FromCode(a[0]) + (Encode(a[1..]) + Encode(b));
      assert FromCode(a[0]) + (Encode(a[1..]) + Encode(b)) == (FromCode(a[0]) + Encode(a[1..])) + Encode(b);
    } else {
      assert a + b == b;
    }
  }

  lemma EncodeSnoc(a: seq<WChar>, c: WChar)
    ensures Encode(a + [c]) == Encode(a) + FromCode(c)
  {
    EncodeAppend(a, [c]);
  }

  /** ASCII text is its own UTF-8 encoding. */
  lemma {:induction false} EncodeAscii(cs: seq<WChar>)
    requires forall i :: 0 <= i < |cs| ==> cs[i] < 0x80
    ensures Encode(cs) == cs
  {
    if cs != [] {
      EncodeAscii(cs[1..]);
    }
  }

  /** The encoding of a prefix is a prefix of the encoding. */
  lemma EncodePrefix(cs: seq<WChar>, i: nat)
    requires i <= |cs|
    ensures |Encode(cs[..i])| <= |Encode(cs)|
    ensures Encode(cs) == Encode(cs[..i]) + Encode(cs[i..])
  {
    assert cs == cs[..i] + cs[i..];
    EncodeAppend(cs[..i], cs[i..]);
  }

  /**
   * `zis_string_obj_to_u8str(self, NULL, 0)`: the number of UTF-8 bytes
   * the string needs: the length for a C1 string, the sum of
   * `zis_u8char_len_from_code` otherwise.
   */
  method U8Size(s: Str) returns (n: nat)
    requires Valid(s) && Encodes(s)
    ensures n == |Encode(s.chars)|
  {
    if s.ct == C1 {
      EncodeAscii(s.chars);
      return |s.chars|;
    }
    n := 0;
    var i := 0;
    while i < |s.chars|
      invariant i <= |s.chars|
      invariant n == |Encode(s.chars[..i])|
    {
      EncodeSnoc(s.chars[..i], s.chars[i]);
      assert s.chars[..i + 1] == s.chars[..i] + [s.chars[i]];
      n := n + LenFromCode(s.chars[i]);
      i := i + 1;
    }
    assert s.chars[..i] == s.chars;
  }

  /** Writes `bytes` into `buf` at `p` (`memcpy` / `zis_u8char_from_code`). */
  method Put(buf: array<Byte>, p: nat, bytes: seq<Byte>)
    requires p + |bytes| <= buf.Length
    modifies buf
    ensures buf[..] == old(buf[..p]) + bytes + old(buf[p + |bytes|..])
  {
    for k := 0 to |bytes|
      invariant buf[..] == old(buf[..p]) + bytes[..k] + old(buf[p + k..])
    {
      buf[p + k] := bytes[k];
      assert bytes[..k + 1] == bytes[..k] + [bytes[k]];
    }
  }

  /**
   * `zis_string_obj_to_u8str(self, buf, buf_sz)` with `buf_sz ==
   * buf.Length`: the UTF-8 text of the string in front of `buf` and its byte
   * count, or -1 when it does not fit.  A C1 string is copied whole or not
   * at all; a wider string is encoded character by character, directly while
   * 4 bytes are left and through a scratch buffer near the end, and may
   * leave a partial encoding behind when it fails.
   */
  method ToU8Str(s: Str, buf: array<Byte>) returns (r: int)
    requires Valid(s) && Encodes(s)
    modifies buf
    ensures r == -1 <==> buf.Length < |Encode(s.chars)|
    ensures r != -1 ==> r == |Encode(s.chars)| && buf[..r] == Encode(s.chars) && buf[r..] == old(buf[r..])
    ensures r == -1 && s.ct == C1 ==> buf[..] == old(buf[..])
    ensures r == -1 ==> exists p :: 0 <= p <= buf.Length && p <= |Encode(s.chars)| &&
                          buf[..p] == Encode(s.chars)[..p] && buf[p..] == old(buf[p..])
  {
    if s.ct == C1 {
      EncodeAscii(s.chars);
      if buf.Length < |s.chars| {
        assert buf[..0] == Encode(s.chars)[..0];
        return -1;
      }
      Put(buf, 0, s.chars);
      assert buf[..|s.chars|] == Encode(s.chars);
      return |s.chars|;
    }
    r := EncodeWide(s.chars, buf);
  }

  /** The encoding of the first `i` characters fills `buf` up to `p`, and the rest of `buf` is as before. */
  ghost predicate Filled(cs: seq<WChar>, i: nat, buf: seq<Byte>, old_buf: seq<Byte>, p: nat)
    requires i <= |cs|
  {
    p == |Encode(cs[..i])| <= |buf| == |old_buf| &&
    buf[..p] == Encode(cs[..i]) && buf[p..] == old_buf[p..]
  }

  /** The encoding of one more character extends the encoding of the prefix. */
  lemma EncodeNext(cs: seq<WChar>, i: nat)
    requires i < |cs|
    ensures Encode(cs[..i + 1]) == Encode(cs[..i]) + FromCode(cs[i])
    ensures |Encode(cs[..i + 1])| <= |Encode(cs)|
  {
    EncodeSnoc(cs[..i], cs[i]);
    assert cs[..i + 1] == cs[..i] + [cs[i]];
    EncodePrefix(cs, i + 1);
  }

  /**
   * The C2/C4 loop of `to_u8str`: each character is encoded straight into
   * `buf` while at least 4 bytes are left, and otherwise through a scratch
   * buffer, failing with -1 when it does not fit.
   */
  method EncodeWide(cs: seq<WChar>, buf: array<Byte>) returns (r: int)
    modifies buf
    ensures r == -1 <==> buf.Length < |Encode(cs)|
    ensures r != -1 ==> r == |Encode(cs)| && buf[..r] == Encode(cs) && buf[r..] == old(buf[r..])
    ensures r == -1 ==> exists p :: 0 <= p <= buf.Length && p <= |Encode(cs)| &&
                          buf[..p] == Encode(cs)[..p] && buf[p..] == old(buf[p..])
  {
    var p: nat := 0;
    var i := 0;
    while i < |cs|
      invariant i <= |cs|
      invariant Filled(cs, i, buf[..], old(buf[..]), p)
    {
      var u := FromCode(cs[i]);
      EncodeNext(cs, i);
      if p + 4 > buf.Length && p + |u| > buf.Length {
        EncodePrefix(cs, i);
        assert Encode(cs)[..p] == Encode(cs[..i]);
        return -1;
      }
      Put(buf, p, u);
      assert buf[..p + |u|] == Encode(cs[..i]) + u;
      p := p + |u|;
      i := i + 1;
    }
    assert cs[..i] == cs;
    return p;
  }

  /**
   * `zis_string_obj_as_ascii`: the data and length of a C1 string, which is
   * its ASCII text; NULL for a wider string.
   */
  function AsAscii(s: Str): (r: Option<(seq<Byte>, nat)>)
    requires Valid(s)
    ensures r.Some? <==> s.ct == C1
    ensures r.Some? ==> r.value.1 == |s.chars| && r.value.0 == Encode(s.chars)
    ensures r.Some? ==> forall i :: 0 <= i < |r.value.0| ==> r.value.0[i] < 0x80
  {
    if s.ct == C1 then
      EncodeAscii(s.chars);
      Some((s.chars, |s.chars|))
    else
      None
  }

  /* ----- joining --------------------------------------------------------- */

  /** An item of `join`: a string, a small integer taken as a character, or another object. */
  datatype Item = Text(s: Str) | Char(v: int) | Other

  /** Items `join` accepts; it panics on a negative integer or an object of another type. */
  predicate Accepted(it: Item) {
    it.Text? || (it.Char? && it.v >= 0)
  }

  predicate AllAccepted(items: seq<Item>) {
    forall i :: 0 <= i < |items| ==> Accepted(items[i])
  }

  /**
   * The string an accepted item stands for: the string itself, or the
   * one-character string of the integer cast to `zis_wchar_t` (which keeps
   * its low 32 bits).
   */
  function ItemStr(it: Item): Str
    requires Accepted(it)
  {
    if it.Text? then it.s else FromChar(it.v % 0x1_0000_0000)
  }

  /** The characters of `join`: the items' characters with `sep` between neighbours. */
  function Joined(sep: seq<WChar>, items: seq<Item>): seq<WChar>
    requires AllAccepted(items)
  {
    if |items| == 0 then []
    else if |items| == 1 then ItemStr(items[0]).chars
    else Joined(sep, items[..|items| - 1]) + sep + ItemStr(items[|items| - 1]).chars
  }

  /** The widest char type among the items, starting from `start`. */
  function JoinType(start: CharType, items: seq<Item>): (ct: CharType)
    requires AllAccepted(items)
    ensures Code(start) <= Code(ct)
    ensures forall i :: 0 <= i < |items| ==> Code(ItemStr(items[i]).ct) <= Code(ct)
  {
    if items == [] then start
    else Wider(JoinType(start, items[..|items| - 1]), ItemStr(items[|items| - 1]).ct)
  }

  /** The total length of the items. */
  function TotalLength(items: seq<Item>): nat
    requires AllAccepted(items)
  {
    if items == [] then 0 else TotalLength(items[..|items| - 1]) + |ItemStr(items[|items| - 1]).chars|
  }

  /** The joined characters number the items' lengths plus one separator between each neighbouring pair. */
  lemma {:induction false} JoinedLength(sep: seq<WChar>, items: seq<Item>)
    requires AllAccepted(items) && items != []
    ensures |Joined(sep, items)| == TotalLength(items) + (|items| - 1) * |sep|
  {
    if |items| > 1 {
      JoinedLength(sep, items[..|items| - 1]);
    } else {
      assert items[..0] == [];
    }
  }

  /** Every joined character comes from the separator or an item, so it fits the widest of their types. */
  lemma {:induction false} JoinedFits(sep: Str, items: seq<Item>, ct: CharType)
    requires AllAccepted(items) && Valid(sep) && Code(sep.ct) <= Code(ct)
    requires forall i :: 0 <= i < |items| ==> Valid(ItemStr(items[i])) && Code(ItemStr(items[i]).ct) <= Code(ct)
    ensures Valid(Str(ct, Joined(sep.chars, items)))
  {
    if |items| > 1 {
      var init := items[..|items| - 1];
      var last := ItemStr(items[|items| - 1]);
      assert forall i :: 0 <= i < |init| ==> init[i] == items[i];
      JoinedFits(sep, init, ct);
      var j := Joined(sep.chars, init) + sep.chars + last.chars;
      forall i | 0 <= i < |j|
        ensures Fits(j[i], ct)
      {
        if i < |Joined(sep.chars, init)| {
        } else if i < |Joined(sep.chars, init)| + |sep.chars| {
          FitsWider(sep.chars[i - |Joined(sep.chars, init)|], sep.ct, ct);
        } else {
          FitsWider(last.chars[i - |Joined(sep.chars, init)| - |sep.chars|], last.ct, ct);
        }
      }
    } else if |items| == 1 {
      var only := ItemStr(items[0]);
      forall i | 0 <= i < |only.chars|
        ensures Fits(only.chars[i], ct)
      {
        FitsWider(only.chars[i], only.ct, ct);
      }
    }
  }

  /** Items that are valid strings or accepted integers give a valid joined string. */
  predicate ValidItems(items: seq<Item>) {
    forall i :: 0 <= i < |items| ==> (items[i].Text? ==> Valid(items[i].s))
  }

  /**
   * `zis_string_obj_join(z, separator, items)`: `None` stands for the
   * runtime panic on an item that is a negative integer or not a string.
   * Zero items give the shared empty string.  Otherwise the first loop finds
   * the widest char type and the length, starting from the separator's (or
   * C1 and 0 without one), and the second copies the items, and the
   * separator between them, widening each character.
   */
  method Join(sep: Option<Str>, items: seq<Item>) returns (r: Option<Str>)
    ensures items == [] ==> r == Some(Empty)
    ensures items != [] ==> (r.None? <==> !AllAccepted(items))
    ensures r.Some? && items != [] ==>
              var sepChars := if sep.Some? then sep.value.chars else [];
              var start := if sep.Some? then sep.value.ct else C1;
              r.value == Str(JoinType(start, items), Joined(sepChars, items)) &&
              |r.value.chars| == TotalLength(items) + (|items| - 1) * |sepChars|
    ensures r.Some? && ValidItems(items) && (sep.Some? ==> Valid(sep.value)) ==> Valid(r.value)
  {
    if |items| == 0 {
      return Some(Empty);
    }
    var sepChars := if sep.Some? then sep.value.chars else [];
    var start := if sep.Some? then sep.value.ct else C1;
    var ok, ct, count := JoinMeasure(start, (|items| - 1) * |sepChars|, items);
    if !ok {
      return None;
    }
    var chars := JoinCopy(sepChars, items);
    JoinedLength(sepChars, items);
    var sepStr := if sep.Some? then sep.value else Empty;
    if ValidItems(items) && (sep.Some? ==> Valid(sep.value)) {
      JoinedFits(sepStr, items, ct);
    }
    return Some(Str(ct, chars));
  }

  /**
   * The first loop of `join`: the widest char type and the total length,
   * from the separator's type `start` and the separators' length `count0`;
   * fails at the first item the runtime panics on.
   */
  method JoinMeasure(start: CharType, count0: nat, items: seq<Item>) returns (ok: bool, ct: CharType, count: nat)
    ensures ok <==> AllAccepted(items)
    ensures ok ==> ct == JoinType(start, items) && count == count0 + TotalLength(items)
  {
    ct, count := start, count0;
    var i := 0;
    while i < |items|
      invariant i <= |items|
      invariant AllAccepted(items[..i])
      invariant ct == JoinType(start, items[..i])
      invariant count == count0 + TotalLength(items[..i])
    {
      var it := items[i];
      var itemType, itemCount;
      if it.Char? {
        if it.v < 0 {
          return false, ct, count;
        }
        itemType, itemCount := MinCharType(it.v % 0x1_0000_0000), 1;
      } else if it.Text? {
        itemType, itemCount := it.s.ct, |it.s.chars|;
      } else {
        return false, ct, count;
      }
      assert items[..i + 1][..i] == items[..i];
      if Code(itemType) > Code(ct) {
        ct := itemType;
      }
      count := count + itemCount;
      i := i + 1;
    }
    assert items[..i] == items;
    return true, ct, count;
  }

  /**
   * The second loop of `join`: each item's characters, preceded by the
   * separator from the second item on; a small integer is copied through a
   * one-character string.
   */
  method JoinCopy(sepChars: seq<WChar>, items: seq<Item>) returns (chars: seq<WChar>)
    requires AllAccepted(items)
    ensures chars == Joined(sepChars, items)
  {
    chars := [];
    var i := 0;
    while i < |items|
      invariant i <= |items|
      invariant chars == Joined(sepChars, items[..i])
    {
      if i > 0 {
        chars := chars + sepChars;
      }
      if i == 0 {
        chars := ItemStr(items[0]).chars;
      } else {
        chars := chars + ItemStr(items[i]).chars;
      }
      assert items[..i + 1][..i] == items[..i];
      i := i + 1;
    }
    assert items[..i] == items;
  }

  /** `zis_string_obj_concat2`: `join` of the two strings without a separator. */
  method Concat2(a: Str, b: Str) returns (r: Str)
    ensures r.chars == a.chars + b.chars
    ensures r.ct == Wider(a.ct, b.ct)
    ensures Valid(a) && Valid(b) ==> Valid(r)
  {
    var j := Join(None, [Text(a), Text(b)]);
    var items := [Text(a), Text(b)];
    assert items[..1] == [Text(a)];
    assert [Text(a)][..0] == [];
    assert JoinType(C1, [Text(a)]) == a.ct;
    assert JoinType(C1, items) == Wider(a.ct, b.ct);
    r := j.value;
  }

  /* ----- hashing --------------------------------------------------------- */

  /** Bytes as the octets `zis_hash_bytes` reads. */
  function Octets(bs: seq<Byte>): (r: seq<bv8>)
    ensures |r| == |bs|
  {
    seq(|bs|, i requires 0 <= i < |bs| => bs[i] as bv8)
  }

  /**
   * `String.hash` as written: `zis_hash_bytes` over the first
   * `char_type * char_count` data bytes.  The enumerator is one less than
   * the character size, so every C1 string hashes no bytes at all and gets
   * the hash of the empty input.
   */
  function HashAsWritten(w: Width, s: Str): (h: nat)
    requires |Data(s)| < 0x8000_0000
    ensures s.ct == C1 ==> h == Algorithm.HashBytes(w, [])
  {
    Algorithm.HashBytes(w, Octets(Data(s)[..Code(s.ct) * |s.chars|]))
  }

  /** Two different one-character ASCII strings, "a" and "b", get the same hash as written. */
  lemma AsciiHashCollision(w: Width)
    ensures Str(C1, [0x61]) != Str(C1, [0x62])
    ensures HashAsWritten(w, Str(C1, [0x61])) == HashAsWritten(w, Str(C1, [0x62]))
  {
  }

  /** The hash over all `char_count * char_size` data bytes. */
  function Hash(w: Width, s: Str): (h: nat)
    requires |Data(s)| < 0x8000_0000
    ensures h <= SmallInt.Max(w)
  {
    Algorithm.HashBytes(w, Octets(Data(s)))
  }

  /**
   * Hashing all data bytes: two valid strings of one type and length that
   * give the hash the same input are equal, so only equal strings are
   * guaranteed the same hash and different ones differ in the hashed bytes.
   */
  lemma HashInputDistinguishes(a: Str, b: Str)
    requires Valid(a) && Valid(b) && a.ct == b.ct && |a.chars| == |b.chars|
    requires Data(a) == Data(b)
    ensures a == b
  {
    BytesInjective(a.ct, a.chars, b.chars);
  }
}
