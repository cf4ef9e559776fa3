/**
 * The UTF-8 and character helpers of `core/strutil.c`.
 *
 * Bytes are naturals below 256 and code points naturals below 2^32
 * (`zis_wchar_t`).  The masks of the source are stated as ranges and
 * remainders: `b & 0x3f` is `b % 64`, `(b & 0xe0) == 0xc0` is
 * `0xc0 <= b < 0xe0`, and a shift-and-or of disjoint bit fields is the sum
 * of the fields scaled by powers of two.
 *
 * The encoding follows the table of section 3 of RFC 3629 but goes up to
 * 0x1FFFFF and neither rejects overlong forms nor checks the continuation
 * bytes when decoding.
 */
module Strutil {
  import opened Wrappers
  import Numerals

  type Byte = b: nat | b < 0x100

  type WChar = c: nat | c < 0x1_0000_0000

  /** `unsigned int` -1: "not a digit". */
  const UintMax: nat := 0xffff_ffff

  /** The largest code point the encoder accepts. */
  const MaxCode: nat := 0x1f_ffff

  /** `(b & 0xc0) == 0x80`: a continuation byte 10xxxxxx. */
  predicate IsCont(b: Byte) {
    0x80 <= b < 0xc0
  }

  /** `(b & 0xe0) == 0xc0`: lead byte 110xxxxx. */
  predicate IsLead2(b: Byte) {
    0xc0 <= b < 0xe0
  }

  /** `(b & 0xf0) == 0xe0`: lead byte 1110xxxx. */
  predicate IsLead3(b: Byte) {
    0xe0 <= b < 0xf0
  }

  /** `(b & 0xf8) == 0xf0`: lead byte 11110xxx. */
  predicate IsLead4(b: Byte) {
    0xf0 <= b < 0xf8
  }

  /** `zis_u8char_len_from_code`: the number of bytes that encode `code`, 0 beyond 0x1FFFFF. */
  function LenFromCode(code: WChar): (n: nat)
    ensures n <= 4
    ensures n == 0 <==> code > MaxCode
    ensures n == 1 <==> code < 0x80
    ensures n == 2 <==> 0x80 <= code <= 0x7ff
    ensures n == 3 <==> 0x800 <= code <= 0xffff
    ensures n == 4 <==> 0x1_0000 <= code <= MaxCode
  {
    if code < 0x80 then 1
    else if code <= 0x7ff then 2
    else if code <= 0xffff then 3
    else if code <= MaxCode then 4
    else 0
  }

  /** `_zis_u8char_len_1_mb`: the sequence length a non-ASCII lead byte announces, 0 if it is none. */
  function Len1Mb(b: Byte): (n: nat)
    requires b >= 0x80
    ensures n == 0 <==> IsCont(b) || b >= 0xf8
    ensures n == 2 <==> IsLead2(b)
    ensures n == 3 <==> IsLead3(b)
    ensures n == 4 <==> IsLead4(b)
  {
    if IsLead2(b) then 2
    else if IsLead3(b) then 3
    else if IsLead4(b) then 4
    else 0
  }

  /** `zis_u8char_len_1`: 1 for an ASCII byte, else `Len1Mb`. */
  function Len1(b: Byte): (n: nat)
    ensures n <= 4
    ensures n == 1 <==> b < 0x80
  {
    if b < 0x80 then 1 else Len1Mb(b)
  }

  /**
   * `zis_u8char_from_code`: the bytes written to the buffer; their number is
   * the returned length, and nothing is written for a code beyond 0x1FFFFF.
   */
  function FromCode(code: WChar): (r: seq<Byte>)
    ensures |r| == LenFromCode(code)
    ensures |r| > 0 ==> Len1(r[0]) == |r| && (r[0] == 0 <==> code == 0)
    ensures forall k :: 1 <= k < |r| ==> IsCont(r[k])
  {
    if code < 0x80 then [code]
    else if code <= 0x7ff then [0xc0 + code / 64, 0x80 + code % 64]
    else if code <= 0xffff then
      [0xe0 + code / 0x1000, 0x80 + code / 64 % 64, 0x80 + code % 64]
    else if code <= MaxCode then
      [0xf0 + code / 0x4_0000, 0x80 + code / 0x1000 % 64, 0x80 + code / 64 % 64, 0x80 + code % 64]
    else []
  }

  /**
   * `zis_u8char_to_code(&code, s, s_end)`: the length and the code point.
   * The length comes from the lead byte alone; it is 0, and `code` keeps its
   * previous value `prev`, when the lead byte is invalid or the sequence would
   * pass the end.  Continuation bytes are not checked.
   */
  function ToCode(prev: WChar, s: seq<Byte>): (r: (nat, WChar))
    requires |s| >= 1
    ensures r.0 == 0 || r.0 == Len1(s[0])
    ensures r.0 == 0 <==> Len1(s[0]) == 0 || Len1(s[0]) > |s|
    ensures r.0 == 0 ==> r.1 == prev
    ensures r.0 != 0 ==> r.1 <= MaxCode
  {
    var n := Len1(s[0]);
    if n > |s| then (0, prev)
    else if n == 0 then (0, prev)
    else if n == 1 then (1, s[0])
    else if n == 2 then (2, (s[0] as nat % 32) * 64 + s[1] as nat % 64)
    else if n == 3 then (3, (s[0] as nat % 16) * 0x1000 + (s[1] as nat % 64) * 64 + s[2] as nat % 64)
    else (4, (s[0] as nat % 8) * 0x4_0000 + (s[1] as nat % 64) * 0x1000 + (s[2] as nat % 64) * 64 + s[3] as nat % 64)
  }

  /** Every code point up to 0x1FFFFF decodes back from its encoding, whatever follows it. */
  lemma ToCodeFromCode(prev: WChar, code: WChar, rest: seq<Byte>)
    requires code <= MaxCode
    ensures ToCode(prev, FromCode(code) + rest) == (LenFromCode(code), code)
  {
    if 0x80 <= code <= 0x7ff {
      ToCodeFromCode2(prev, code, rest);
    } else if 0x800 <= code <= 0xffff {
      ToCodeFromCode3(prev, code, rest);
    } else if 0x1_0000 <= code {
      ToCodeFromCode4(prev, code, rest);
    } else {
      assert (FromCode(code) + rest)[0] == code;
    }
  }

  lemma ToCodeFromCode2(prev: WChar, code: WChar, rest: seq<Byte>)
    requires 0x80 <= code <= 0x7ff
    ensures ToCode(prev, FromCode(code) + rest) == (2, code)
  {
    var s := FromCode(code) + rest;
    assert s[0] == 0xc0 + code / 64 && s[1] == 0x80 + code % 64;
    assert s[0] % 32 == code / 64;
  }

  lemma ToCodeFromCode3(prev: WChar, code: WChar, rest: seq<Byte>)
    requires 0x800 <= code <= 0xffff
    ensures ToCode(prev, FromCode(code) + rest) == (3, code)
  {
    var s := FromCode(code) + rest;
    assert s[0] == 0xe0 + code / 0x1000 && s[1] == 0x80 + code / 64 % 64 && s[2] == 0x80 + code % 64;
    assert s[0] % 16 == code / 0x1000;
    assert s[1] % 64 == code / 64 % 64;
    Digits3(code);
  }

  lemma ToCodeFromCode4(prev: WChar, code: WChar, rest: seq<Byte>)
    requires 0x1_0000 <= code <= MaxCode
    ensures ToCode(prev, FromCode(code) + rest) == (4, code)
  {
    var s := FromCode(code) + rest;
    assert s[0] == 0xf0 + code / 0x4_0000 && s[1] == 0x80 + code / 0x1000 % 64;
    assert s[2] == 0x80 + code / 64 % 64 && s[3] == 0x80 + code % 64;
    assert s[0] % 8 == code / 0x4_0000;
    assert s[1] % 64 == code / 0x1000 % 64;
    assert s[2] % 64 == code / 64 % 64;
    Digits4(code);
  }

  /** A number below 2^16 is its three base-64 digits (the top one below 16). */
  lemma Digits3(c: nat)
    requires c < 0x1_0000
    ensures c == (c / 0x1000) * 0x1000 + (c / 64 % 64) * 64 + c % 64
  {
    assert c / 0x1000 == c / 64 / 64;
  }

  /** A number below 2^21 is its four base-64 digits (the top one below 8). */
  lemma Digits4(c: nat)
    requires c < 0x20_0000
    ensures c == (c / 0x4_0000) * 0x4_0000 + (c / 0x1000 % 64) * 0x1000 + (c / 64 % 64) * 64 + c % 64
  {
    assert c / 0x4_0000 == c / 0x1000 / 64;
    assert c / 0x1000 == c / 64 / 64;
  }

  /** Overlong forms are not rejected: C0 80 decodes to U+0000 with length 2. */
  lemma OverlongAccepted()
    ensures ToCode(0x41, [0xc0, 0x80]) == (2, 0)
    ensures FromCode(0) == [0]
  {
  }

  /**
   * `zis_u8char_len_s(s, n_bytes)` on the first `n_bytes` bytes: the
   * sequence length when the lead byte and the continuation bytes are valid;
   * `-1 - k` when byte k (k >= 1) is not a continuation byte; -1 when the
   * input is too short or the lead byte is invalid.
   */
  function LenS(s: seq<Byte>): (r: int)
    ensures r != 0 && -4 <= r <= 4
    ensures r > 0 ==> r <= |s| && r == Len1(s[0]) && forall k :: 1 <= k < r ==> IsCont(s[k])
    ensures r < -1 ==> -1 - r < |s| && !IsCont(s[-1 - r]) && forall k :: 1 <= k < -1 - r ==> IsCont(s[k])
    ensures |s| >= 1 && 1 <= Len1(s[0]) <= |s| && (forall k :: 1 <= k < Len1(s[0]) ==> IsCont(s[k])) ==>
              r == Len1(s[0])
  {
    if |s| < 1 then -1 - 0
    else if s[0] < 0x80 then 1
    else if |s| < 2 then -1 - 0
    else if !IsCont(s[1]) then -1 - 1
    else if IsLead2(s[0]) then 2
    else if |s| < 3 then -1 - 0
    else if !IsCont(s[2]) then -1 - 2
    else if IsLead3(s[0]) then 3
    else if |s| < 4 then -1 - 0
    else if !IsCont(s[3]) then -1 - 3
    else if IsLead4(s[0]) then 4
    else -1 - 0
  }

  /** The encoder's output passes the checked length test. */
  lemma LenSFromCode(code: WChar, rest: seq<Byte>)
    requires code <= MaxCode
    ensures LenS(FromCode(code) + rest) == LenFromCode(code)
  {
    var s := FromCode(code) + rest;
    assert forall k :: 1 <= k < |FromCode(code)| ==> s[k] == FromCode(code)[k];
  }

  /* ----- NUL-terminated strings ----------------------------------------- */

  /**
   * Stepping from lead byte to lead byte from index `i` reaches a NUL byte or
   * an invalid lead byte without leaving `s`: `s` then holds a string the
   * scanners below can walk.
   */
  predicate Terminated(s: seq<Byte>, i: nat)
    decreases |s| - i
  {
    i < |s| && (s[i] == 0 || Len1(s[i]) == 0 || Terminated(s, i + Len1(s[i])))
  }

  /** The number of characters from index `i` up to the NUL or the first invalid lead byte. */
  function CharCount(s: seq<Byte>, i: nat): nat
    requires Terminated(s, i)
    decreases |s| - i
  {
    if s[i] == 0 || Len1(s[i]) == 0 then 0 else 1 + CharCount(s, i + Len1(s[i]))
  }

  /** `zis_u8str_len`: the character count of the string at the start of `s`. */
  method U8StrLen(s: seq<Byte>) returns (len: nat)
    requires Terminated(s, 0)
    ensures len == CharCount(s, 0)
  {
    len := 0;
    var i: nat := 0;
    while true
      invariant Terminated(s, i)
      invariant len + CharCount(s, i) == CharCount(s, 0)
      decreases |s| - i
    {
      var c := s[i];
      if c == 0 {
        return;
      }
      var n := Len1(c);
      if n == 0 {
        return;
      }
      i := i + n;
      len := len + 1;
    }
  }

  /** The index `n` characters on from `i`, stopping at the NUL; None at an invalid lead byte. */
  function FindPos(s: seq<Byte>, i: nat, n: nat): (r: Option<nat>)
    requires Terminated(s, i)
    ensures r.Some? ==> i <= r.value < |s|
    decreases n
  {
    if n == 0 || s[i] == 0 then Some(i)
    else if Len1(s[i]) == 0 then None
    else FindPos(s, i + Len1(s[i]), n - 1)
  }

  /** `zis_u8str_find_pos(s, n_chars)`: the index of character `n_chars`, or of the NUL when there are fewer. */
  method U8StrFindPos(s: seq<Byte>, nChars: nat) returns (r: Option<nat>)
    requires Terminated(s, 0)
    ensures r == FindPos(s, 0, nChars)
  {
    var i: nat, k := 0, nChars;
    while k > 0
      invariant Terminated(s, i)
      invariant FindPos(s, i, k) == FindPos(s, 0, nChars)
    {
      k := k - 1;
      var c := s[i];
      if c == 0 {
        break;
      }
      var n := Len1(c);
      if n == 0 {
        return None;
      }
      i := i + n;
    }
    return Some(i);
  }

  /** A string of code points, as UTF-8. */
  function Encode(codes: seq<WChar>): (r: seq<Byte>)
  {
    if codes == [] then [] else FromCode(codes[0]) + Encode(codes[1..])
  }

  /** Code points the encoder accepts and that are not NUL. */
  predicate Encodable(codes: seq<WChar>) {
    forall k :: 0 <= k < |codes| ==> 1 <= codes[k] <= MaxCode
  }

  /** `s` holds, from index `i`, the encoding of `codes` and then a NUL byte. */
  predicate EncodedAt(s: seq<Byte>, i: nat, codes: seq<WChar>) {
    var e := Encode(codes);
    i + |e| < |s| && s[i..i + |e|] == e && s[i + |e|] == 0
  }

  /** Encoded text starts with a non-NUL lead byte announcing the first code point's length, and the rest follows it. */
  lemma EncodedAtNext(s: seq<Byte>, i: nat, codes: seq<WChar>)
    requires Encodable(codes) && codes != [] && EncodedAt(s, i, codes)
    ensures |FromCode(codes[0])| >= 1
    ensures s[i] != 0 && Len1(s[i]) == |FromCode(codes[0])|
    ensures EncodedAt(s, i + |FromCode(codes[0])|, codes[1..])
  {
    var b, e, e' := FromCode(codes[0]), Encode(codes), Encode(codes[1..]);
    assert e == b + e';
    var w := s[i..i + |e|];
    assert w == e;
    assert s[i] == w[0] && w[0] == b[0];
    assert s[i + |b|..i + |b| + |e'|] == w[|b|..];
    assert w[|b|..] == e';
  }

  /**
   * From index `i`, `s` holds one lead byte per code point, each announcing
   * that code point's encoded length, and then a NUL byte.
   */
  predicate LeadsAt(s: seq<Byte>, i: nat, codes: seq<WChar>)
    decreases |codes|
  {
    i < |s| &&
    if codes == [] then s[i] == 0
    else s[i] != 0 && Len1(s[i]) == LenFromCode(codes[0]) && LeadsAt(s, i + LenFromCode(codes[0]), codes[1..])
  }

  lemma {:induction false} EncodedLeads(s: seq<Byte>, i: nat, codes: seq<WChar>)
    requires Encodable(codes) && EncodedAt(s, i, codes)
    ensures LeadsAt(s, i, codes)
    decreases |codes|
  {
    if codes != [] {
      EncodedAtNext(s, i, codes);
      EncodedLeads(s, i + |FromCode(codes[0])|, codes[1..]);
    }
  }

  lemma {:induction false} LeadsCount(s: seq<Byte>, i: nat, codes: seq<WChar>)
    requires LeadsAt(s, i, codes)
    ensures Terminated(s, i)
    ensures CharCount(s, i) == |codes|
    decreases |codes|
  {
    if codes != [] {
      LeadsCount(s, i + LenFromCode(codes[0]), codes[1..]);
    }
  }

  /** The encoding of code points, NUL-terminated, is walkable and counts one character per code point. */
  lemma EncodedCount(s: seq<Byte>, i: nat, codes: seq<WChar>)
    requires Encodable(codes) && EncodedAt(s, i, codes)
    ensures Terminated(s, i)
    ensures CharCount(s, i) == |codes|
  {
    EncodedLeads(s, i, codes);
    LeadsCount(s, i, codes);
  }

  /** The byte offset of code point `k` in the encoding of `codes`: the lengths of the ones before it. */
  function Offset(codes: seq<WChar>, k: nat): nat
    requires k <= |codes|
  {
    if k == 0 then 0 else LenFromCode(codes[0]) + Offset(codes[1..], k - 1)
  }

  /** The offset of code point `k` is the length of the encoding of the first `k` code points. */
  lemma {:induction false} OffsetOfPrefix(codes: seq<WChar>, k: nat)
    requires k <= |codes|
    ensures Offset(codes, k) == |Encode(codes[..k])|
  {
    if k > 0 {
      OffsetOfPrefix(codes[1..], k - 1);
      assert codes[..k][1..] == codes[1..][..k - 1];
    } else {
      assert codes[..0] == [];
    }
  }

  lemma {:induction false} LeadsFindPos(s: seq<Byte>, i: nat, codes: seq<WChar>, k: nat)
    requires LeadsAt(s, i, codes) && k <= |codes|
    ensures Terminated(s, i)
    ensures FindPos(s, i, k) == Some(i + Offset(codes, k))
    decreases k
  {
    LeadsCount(s, i, codes);
    if k > 0 {
      LeadsFindPos(s, i + LenFromCode(codes[0]), codes[1..], k - 1);
    }
  }

  lemma {:induction false} LeadsFindPosPastEnd(s: seq<Byte>, i: nat, codes: seq<WChar>, k: nat)
    requires LeadsAt(s, i, codes) && k > |codes|
    ensures Terminated(s, i)
    ensures FindPos(s, i, k) == Some(i + Offset(codes, |codes|))
    decreases |codes|
  {
    LeadsCount(s, i, codes);
    if codes != [] {
      LeadsFindPosPastEnd(s, i + LenFromCode(codes[0]), codes[1..], k - 1);
    }
  }

  /** On encoded text `find_pos(k)` is the byte offset of the k-th code point. */
  lemma EncodedFindPos(s: seq<Byte>, i: nat, codes: seq<WChar>, k: nat)
    requires Encodable(codes) && EncodedAt(s, i, codes) && k <= |codes|
    ensures Terminated(s, i)
    ensures FindPos(s, i, k) == Some(i + |Encode(codes[..k])|)
  {
    EncodedLeads(s, i, codes);
    LeadsFindPos(s, i, codes, k);
    OffsetOfPrefix(codes, k);
  }

  /** Past the last code point `find_pos` stops at the terminating NUL. */
  lemma EncodedFindPosPastEnd(s: seq<Byte>, i: nat, codes: seq<WChar>, k: nat)
    requires Encodable(codes) && EncodedAt(s, i, codes) && k > |codes|
    ensures Terminated(s, i)
    ensures FindPos(s, i, k) == Some(i + |Encode(codes)|)
  {
    EncodedLeads(s, i, codes);
    LeadsFindPosPastEnd(s, i, codes, k);
    OffsetOfPrefix(codes, |codes|);
    assert codes[..|codes|] == codes;
  }

  /**
   * Index `p` starts a character that ends within the first `maxBytes` bytes:
   * it is not a continuation byte, it is a valid lead byte, and its sequence
   * fits.
   */
  predicate EndsWithin(s: seq<Byte>, maxBytes: nat, p: nat) {
    p < |s| && !IsCont(s[p]) && Len1(s[p]) != 0 && p + Len1(s[p]) <= maxBytes
  }

  /**
   * `zis_u8str_find_end(s, max_bytes)`: scanning down from `s + max_bytes`
   * (that byte is read too), the end of the last character that fits, or
   * None when no character fits.
   */
  method U8StrFindEnd(s: seq<Byte>, maxBytes: nat) returns (r: Option<nat>)
    requires maxBytes < |s|
    ensures r.Some? ==> exists p: nat :: EndsWithin(s, maxBytes, p) && r.value == p + Len1(s[p]) &&
                          forall q :: p < q <= maxBytes ==> !EndsWithin(s, maxBytes, q)
    ensures r.None? ==> forall p :: 0 <= p <= maxBytes ==> !EndsWithin(s, maxBytes, p)
  {
    var p: int := maxBytes;
    while p >= 0
      invariant -1 <= p <= maxBytes
      invariant forall q :: p < q <= maxBytes ==> !EndsWithin(s, maxBytes, q)
    {
      var c := s[p];
      if !IsCont(c) {
        var n := Len1(c);
        if n != 0 && p + n <= maxBytes {
          assert EndsWithin(s, maxBytes, p);
          return Some(p + n);
        }
      }
      p := p - 1;
    }
    return None;
  }

  /* ----- ASCII character classes ---------------------------------------- */

  /** `toupper` in the C locale. */
  function Upper(b: Byte): (r: Byte)
    ensures !('a' as nat <= r <= 'z' as nat)
    ensures r != b ==> 'a' as nat <= b <= 'z' as nat
  {
    if 'a' as nat <= b <= 'z' as nat then b - 32 else b
  }

  /** `zis_str_toupper(s, n)`: the first `n` bytes become upper case, the rest is untouched. */
  method ToUpper(s: array<Byte>, n: nat)
    requires n <= s.Length
    modifies s
    ensures forall i :: 0 <= i < n ==> s[i] == Upper(old(s[i]))
    ensures forall i :: n <= i < s.Length ==> s[i] == old(s[i])
  {
    var i := 0;
    while i < n
      invariant i <= n
      invariant forall k :: 0 <= k < i ==> s[k] == Upper(old(s[k]))
      invariant forall k :: i <= k < s.Length ==> s[k] == old(s[k])
    {
      s[i] := Upper(s[i]);
      i := i + 1;
    }
  }

  /** Upper-casing twice is upper-casing once. */
  lemma UpperIdempotent(b: Byte)
    ensures Upper(Upper(b)) == Upper(b)
  {
  }

  predicate IsDigit(c: nat) {
    '0' as nat <= c <= '9' as nat
  }

  predicate IsAlpha(c: nat) {
    'a' as nat <= c <= 'z' as nat || 'A' as nat <= c <= 'Z' as nat
  }

  /**
   * `zis_char_digit`: '0'-'9' are 0-9, letters of either case are 10-35, and
   * anything else, including every code point from 0x80 on, is `UINT_MAX`.
   */
  function CharDigit(c: WChar): (d: nat)
    ensures d < 36 || d == UintMax
    ensures d < 36 <==> IsDigit(c) || IsAlpha(c)
    ensures IsDigit(c) ==> d == c - '0' as nat
    ensures 'a' as nat <= c <= 'z' as nat ==> d == c - 'a' as nat + 10
    ensures 'A' as nat <= c <= 'Z' as nat ==> d == c - 'A' as nat + 10
  {
    if c >= 0x80 then UintMax
    else if IsDigit(c) then c - '0' as nat
    else if IsAlpha(c) then (if c >= 'a' as nat then c else c + 32) - 'a' as nat + 10
    else UintMax
  }

  /** The digit characters the integer printers emit read back as their digit, in either case. */
  lemma CharDigitOfDigitChar(d: nat, upper: bool)
    requires d < 36
    ensures CharDigit(Numerals.DigitChar(d, upper) as nat) == d
  {
  }
}
