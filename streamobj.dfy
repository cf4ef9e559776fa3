/**
 * The `Stream` object of core/streamobj.c: the in-memory string backend
 * (`sop_str_*`) and the buffered reading of the stream object itself.
 *
 * The stream keeps one byte buffer; in UTF-8 text mode the character
 * buffer is the same buffer, so `_c_buf` is `_b_buf` and the `_b_*`/`_c_*`
 * pointers are indices into it. What a backend `read` returns is given to
 * the operations as a parameter (`None` for the `(size_t)-1` failure).
 */
module StreamObj {
  import opened Wrappers
  import opened Strutil
  import StringObj

  // ----- stream backend: immutable string -----

  /** `SEEK_SET`, `SEEK_CUR` and `SEEK_END` of <stdio.h>. */
  const SeekSet: int := 0
  const SeekCur: int := 1
  const SeekEnd: int := 2

  /** `x` clamped to `[0, hi]`. */
  function Clamp(x: int, hi: nat): (r: nat)
    ensures r <= hi
    ensures 0 <= x <= hi ==> r == x
    ensures x < 0 ==> r == 0
    ensures x > hi ==> r == hi
  {
    if x < 0 then 0 else if x > hi then hi else x
  }

  /**
   * Where `sop_str_seek` moves the position, relative to the start of the
   * data: the base the whence names plus the offset, clamped to the data;
   * nothing for an unknown whence.
   */
  function SeekTarget(size: nat, current: nat, offset: int, whence: int): Option<nat> {
    if whence == SeekSet then Some(Clamp(offset, size))
    else if whence == SeekCur then Some(Clamp(current + offset, size))
    else if whence == SeekEnd then Some(Clamp(size + offset, size))
    else None
  }

  /** A seek never leaves the data, and lands exactly on the target when the target is inside it. */
  lemma SeekTargetInside(size: nat, current: nat, offset: int, whence: int)
    requires whence == SeekSet || whence == SeekCur || whence == SeekEnd
    ensures SeekTarget(size, current, offset, whence).Some?
    ensures SeekTarget(size, current, offset, whence).value <= size
    ensures var base := if whence == SeekSet then 0 else if whence == SeekCur then current else size;
            0 <= base + offset <= size ==> SeekTarget(size, current, offset, whence).value == base + offset
  {
  }

  /** Seeking again to where a seek landed, from the start, stays there; so does seeking by 0 from the current position. */
  lemma SeekStable(size: nat, current: nat, offset: int, whence: int)
    requires current <= size
    requires SeekTarget(size, current, offset, whence).Some?
    ensures var p := SeekTarget(size, current, offset, whence).value;
            SeekTarget(size, current, p, SeekSet) == Some(p) &&
            SeekTarget(size, p, 0, SeekCur) == Some(p) &&
            SeekTarget(size, current, p - size, SeekEnd) == Some(p)
  {
  }

  /** The bytes `sop_str_read` delivers: at most `size`, as many as remain. */
  function Taken(data: seq<Byte>, current: nat, size: nat): (r: seq<Byte>)
    requires current <= |data|
    ensures |r| <= size && current + |r| <= |data|
    ensures |r| == size || current + |r| == |data|
  {
    if |data| - current < size then data[current..] else data[current..current + size]
  }

  /** Two reads deliver what one read of their combined size delivers. */
  lemma TakenConcat(data: seq<Byte>, current: nat, a: nat, b: nat)
    requires current <= |data|
    ensures Taken(data, current, a) + Taken(data, current + |Taken(data, current, a)|, b) ==
            Taken(data, current, a + b)
  {
  }

  /** `struct sop_str_state`: the data and the current position, as an offset from `data_ptr`. */
  class StrState {
    const data: seq<Byte>
    var current: nat

    ghost predicate Valid()
      reads this
    {
      current <= |data|
    }

    /** `sop_str_alloc_state` / `sop_str_use_state_for_static_str`: positioned at the start. */
    constructor (data: seq<Byte>)
      ensures this.data == data && current == 0 && Valid()
    {
      this.data := data;
      current := 0;
    }

    /**
     * `sop_str_seek`: moves to `SeekTarget` and returns the new position;
     * an unknown whence returns 0 and does not move.
     */
    method Seek(offset: int, whence: int) returns (r: int)
      requires Valid()
      modifies this
      ensures Valid()
      ensures var t := SeekTarget(|data|, old(current), offset, whence);
              (t.None? ==> r == 0 && current == old(current)) &&
              (t.Some? ==> current == t.value && r == current)
    {
      var newCur: int;
      if whence == SeekSet {
        newCur := 0;
      } else if whence == SeekCur {
        newCur := current;
      } else if whence == SeekEnd {
        newCur := |data|;
      } else {
        return 0;
      }
      newCur := newCur + offset;
      if newCur < 0 {
        newCur := 0;
      } else if newCur > |data| {
        newCur := |data|;
      }
      current := newCur;
      r := newCur;
    }

    /**
     * `sop_str_read`: copies `Taken` to the front of `buffer`, advances past
     * it and returns its length.
     */
    method Read(buffer: array<Byte>, size: nat) returns (n: nat)
      requires Valid() && size <= buffer.Length
      modifies this, buffer
      ensures Valid()
      ensures var t := Taken(data, old(current), size);
              n == |t| && current == old(current) + n &&
              buffer[..] == t + old(buffer[n..])
    {
      var rest := |data| - current;
      n := if rest < size then rest else size;
      StringObj.Put(buffer, 0, data[current..current + n]);
      current := current + n;
    }
  }

  // ----- stream object -----

  /**
   * What `zis_stream_obj_read_bytes` returns: the buffered bytes first,
   * then what the backend delivered; -1 only when nothing was buffered and
   * the backend failed.
   */
  function ReadBytesResult(rest: nat, size: nat, got: Option<seq<Byte>>): (r: int)
    ensures r == -1 <==> rest < size && rest == 0 && got.None?
    ensures rest >= size ==> r == size
    ensures rest < size && got.Some? ==> r == rest + |got.value|
  {
    if rest >= size then size
    else if got.None? then (if rest > 0 then rest else -1)
    else rest + |got.value|
  }

  /** `ZIS_STREAM_OBJ_BUF_SZ`, which is `BUFSIZ`; 8192 is the glibc value. */
  const BufSize: nat := 8192

  /** '\r' and '\n'. */
  const CR: Byte := 0x0d
  const LF: Byte := 0x0a

  /**
   * The slow path of `peek_char` on the characters `s` from the current
   * position to the end of the buffer: in CRLF mode the CR of a CR LF pair
   * is skipped; then one UTF-8 character is decoded. The result is the
   * number of bytes skipped, the length of the character (0 when none
   * decodes) and the character, -1 when none decodes.
   */
  function PeekIn(s: seq<Byte>, crlf: bool): (r: (nat, nat, int))
    ensures r.0 <= 1 && r.0 + r.1 <= |s|
    ensures r.2 == -1 <==> r.1 == 0
    ensures r.1 != 0 ==> r.1 == Len1(s[r.0]) && 0 <= r.2 <= MaxCode
  {
    var skip := if crlf && |s| >= 2 && s[0] == CR && s[1] == LF then 1 else 0;
    if skip == |s| then (skip, 0, -1)
    else
      var d := ToCode(0, s[skip..]);
      if d.0 == 0 then (skip, 0, -1) else (skip, d.0, d.1)
  }

  /**
   * The inline fast path of `zis_stream_obj_peek_char` and `read_char`
   * (core/streamobj.h) takes a byte below 0x80 that is not CR as the
   * character; the slow path reads the same character there.
   */
  lemma PeekFastPathAgrees(s: seq<Byte>, crlf: bool)
    requires |s| >= 1 && s[0] < 0x80 && s[0] != CR
    ensures PeekIn(s, crlf) == (0, 1, s[0] as int)
  {
  }

  /** The character whose encoding starts the bytes is the one peeked, unless it is the CR of a CR LF pair in CRLF mode. */
  lemma PeekEncoded(c: WChar, rest: seq<Byte>, crlf: bool)
    requires c <= MaxCode && c != CR as WChar
    ensures PeekIn(FromCode(c) + rest, crlf) == (0, LenFromCode(c), c as int)
  {
    ToCodeFromCode(0, c, rest);
    assert FromCode(c) != [CR];
    assert (FromCode(c) + rest)[0] != CR by {
      if c < 0x80 {
      } else {
        assert FromCode(c)[0] >= 0xc0;
      }
    }
  }

  /** What a character-pointer request gives: the end of the stream, a panic, or the position and the bytes left. */
  datatype CharBuf = Eof | Panic | Ptr(pos: nat, rest: nat)

  /**
   * `struct zis_stream_obj` with its byte buffer `_b_buf`. A stream is
   * either readable or writable; in text mode the text is UTF-8 and the
   * character pointers index the same buffer (`_c_buf` is `_b_buf`).
   */
  class Stream {
    const buf: array<Byte>
    const readable: bool
    const text: bool
    const crlf: bool
    var bEnd: nat
    var bCur: nat
    var cEnd: nat
    var cCur: nat

    /**
     * `assert_stream_valid`, with what the UTF-8 text paths assert: an
     * input stream's characters end where its bytes end and run no further
     * than the bytes read; an output stream's byte pointers stay at the
     * start and the end of the buffer.
     */
    ghost predicate Valid()
      reads this
    {
      buf.Length == BufSize &&
      bCur <= bEnd <= buf.Length && cCur <= cEnd <= buf.Length &&
      (text && readable ==> cEnd == bEnd == bCur) &&
      (text && !readable ==> cEnd == bEnd == buf.Length && bCur == 0)
    }

    /**
     * `zis_stream_obj_bind` on a fresh stream: an input stream's buffer is
     * empty, an output stream's is all room; in text mode the character
     * pointers start where the byte pointers do.
     */
    constructor (readable: bool, text: bool, crlf: bool)
      ensures fresh(buf) && buf.Length == BufSize
      ensures this.readable == readable && this.text == text && this.crlf == crlf
      ensures bCur == 0 && bEnd == (if readable then 0 else BufSize)
      ensures text ==> cCur == bCur && cEnd == bEnd
      ensures Valid()
    {
      buf := new Byte[BufSize](_ => 0);
      this.readable := readable;
      this.text := text;
      this.crlf := crlf;
      bCur := 0;
      bEnd := if readable then 0 else BufSize;
      cCur := 0;
      cEnd := if text && !readable then BufSize else 0;
    }

    /**
     * `zis_stream_obj_read_bytes` on a binary input stream, with `got`
     * what the backend's `read` returns when asked for the bytes still
     * missing: the buffered bytes go first, and the backend is asked only
     * when they do not suffice.
     */
    method ReadBytes(out: array<Byte>, size: nat, got: Option<seq<Byte>>) returns (r: int)
      requires Valid() && readable && !text && out != buf && size <= out.Length
      requires bEnd - bCur < size && got.Some? ==> |got.value| <= size - (bEnd - bCur)
      modifies this, out
      ensures Valid() && bEnd == old(bEnd) && cCur == old(cCur) && cEnd == old(cEnd)
      ensures r == ReadBytesResult(old(bEnd - bCur), size, got)
      ensures var rest := old(bEnd - bCur);
              var pending := old(buf[bCur..bEnd]);
              (rest >= size ==> bCur == old(bCur) + size && out[..] == pending[..size] + old(out[size..])) &&
              (rest < size ==>
                 bCur == bEnd &&
                 (got.None? ==> out[..] == pending + old(out[rest..])) &&
                 (got.Some? ==> out[..] == pending + got.value + old(out[rest + |got.value|..])))
    {
      var rest := bEnd - bCur;
      ghost var pending := buf[bCur..bEnd];
      ghost var o := out[..];
      if rest >= size {
        assert pending[..size] == buf[bCur..bCur + size];
        StringObj.Put(out, 0, buf[bCur..bCur + size]);
        assert out[..] == pending[..size] + o[size..];
        bCur := bCur + size;
        return size;
      }
      if rest > 0 {
        StringObj.Put(out, 0, buf[bCur..bEnd]);
        bCur := bEnd;
      }
      assert out[..] == pending + o[rest..];
      if got.None? {
        return if rest > 0 then rest else -1;
      }
      StringObj.Put(out, rest, got.value);
      assert out[..] == pending + got.value + o[rest + |got.value|..];
      r := rest + |got.value|;
    }

    /**
     * `_stream_obj_peek_char_slow_impl` on a UTF-8 input stream, with `got`
     * what the backend's `read` returns: when fewer than five bytes are
     * left, they are moved to the front of the buffer and the backend's
     * bytes appended (a failed read changes nothing and gives -1); then
     * `PeekIn` decides the character, and the current position moves past
     * a skipped CR. Returns the character and its length.
     */
    method PeekSlow(got: Option<seq<Byte>>) returns (c: int, n: nat)
      requires Valid() && readable && text
      requires got.Some? ==> |got.value| <= buf.Length - (cEnd - cCur)
      modifies this, buf
      ensures Valid()
      ensures old(cCur + 4 >= cEnd) && got.None? ==>
                c == -1 && n == 0 && cCur == old(cCur) && cEnd == old(cEnd) && bCur == old(bCur) &&
                buf[..] == old(buf[..])
      ensures old(cCur + 4 >= cEnd) && got.Some? ==>
                buf[..cEnd] == old(buf[cCur..cEnd]) + got.value && bCur == cEnd &&
                PeekIn(buf[..cEnd], crlf) == (cCur, n, c)
      ensures old(cCur + 4 < cEnd) ==>
                buf[..] == old(buf[..]) && cEnd == old(cEnd) && bCur == old(bCur) &&
                PeekIn(buf[old(cCur)..cEnd], crlf) == (cCur - old(cCur), n, c)
    {
      if cCur + 4 >= cEnd {
        if got.None? {
          return -1, 0;
        }
        var kept := buf[cCur..cEnd];
        StringObj.Put(buf, 0, kept + got.value);
        bEnd := |kept| + |got.value|;
        bCur := bEnd;
        cCur := 0;
        cEnd := bEnd;
        assert buf[..cEnd] == kept + got.value;
      }
      var p := PeekIn(buf[cCur..cEnd], crlf);
      cCur := cCur + p.0;
      n := p.1;
      c := p.2;
    }

    /**
     * `zis_stream_obj_char_buf_ptr` on a UTF-8 text stream. When no
     * character is left, an input stream peeks (`got` is what its backend
     * delivers; the end of the stream when no character decodes) and an
     * output stream flushes (`flushed` says whether the backend's write
     * succeeded; the result is not looked at). Then the pointer moves by
     * `moveOffset`, a panic when that passes the bytes left; the position
     * and the bytes left after it are reported.
     */
    method CharBufPtr(moveOffset: nat, got: Option<seq<Byte>>, flushed: bool) returns (r: CharBuf)
      requires Valid() && text
      requires got.Some? ==> |got.value| <= buf.Length
      modifies this, buf
      ensures Valid()
      ensures r.Ptr? ==> cCur == r.pos && r.pos + r.rest == cEnd
      ensures old(cCur < cEnd) ==>
                cEnd == old(cEnd) &&
                (r == Panic <==> moveOffset > old(cEnd - cCur)) &&
                (r != Panic ==> r == Ptr(old(cCur) + moveOffset, old(cEnd - cCur) - moveOffset))
      ensures old(cCur == cEnd) && !readable ==>
                var p := if flushed then 0 else old(cCur);
                cEnd == old(cEnd) &&
                (r == Panic <==> moveOffset > cEnd - p) &&
                (r != Panic ==> r == Ptr(p + moveOffset, cEnd - p - moveOffset))
      ensures old(cCur == cEnd) && readable ==>
                (r == Eof <==> got.None? || PeekIn(buf[..cEnd], crlf).1 == 0) &&
                (r != Eof ==>
                  buf[..cEnd] == got.value && 0 < cEnd - PeekIn(got.value, crlf).0 &&
                  var p := PeekIn(got.value, crlf).0;
                  (r == Panic <==> moveOffset > cEnd - p) &&
                  (r != Panic ==> r == Ptr(p + moveOffset, cEnd - p - moveOffset)))
    {
      if cEnd == cCur {
        if readable {
          var c, _ := PeekSlow(got);
          if c == -1 {
            return Eof;
          }
        } else if flushed {
          cCur := 0;
        }
      }
      var rest := cEnd - cCur;
      if moveOffset > 0 {
        if moveOffset > rest {
          return Panic;
        }
        cCur := cCur + moveOffset;
        rest := rest - moveOffset;
      }
      r := Ptr(cCur, rest);
    }
  }

  // ----- read_line -----

  /** '\n'. */
  const NL: WChar := 0x0a

  /**
   * `zis_stream_obj_read_line` as written, on the characters `chars` the
   * stream yields before its end (where `read_char` gives -1): the state
   * of the loop after it has written `i` bytes of `buf` and read `k`
   * characters. A character whose bit 7 is clear is stored as one byte,
   * truncated to 8 bits; any other is encoded and copied to the FRONT of the
   * buffer (core/streamobj.c:433 copies to `buffer`, not to `buffer + i`), though
   * `i` advances by its length.
   */
  function LineAsWritten(chars: seq<WChar>, size: nat, buf: seq<Byte>, i: nat, k: nat): (r: (nat, nat, seq<Byte>))
    requires 4 <= size <= |buf| && i <= size && k <= |chars|
    requires forall j :: 0 <= j < |chars| ==> chars[j] <= MaxCode
    ensures r.1 <= |chars| && r.0 <= size && |r.2| == |buf|
    decreases size - i
  {
    if i >= size - 3 || k == |chars| then (i, k, buf)
    else
      var c := chars[k];
      if c / 0x80 % 2 == 0 then
        var buf' := buf[i := c % 0x100];
        if c == NL then (i + 1, k + 1, buf') else LineAsWritten(chars, size, buf', i + 1, k + 1)
      else
        var b := FromCode(c);
        LineAsWritten(chars, size, b + buf[|b|..], i + |b|, k + 1)
  }

  /**
   * `zis_stream_obj_read_line` as written: returns the byte count and the
   * number of characters read, with the buffer as `LineAsWritten` leaves it.
   */
  method ReadLineAsWritten(chars: seq<WChar>, buffer: array<Byte>, size: nat) returns (i: nat, k: nat)
    requires 4 <= size <= buffer.Length
    requires forall j :: 0 <= j < |chars| ==> chars[j] <= MaxCode
    modifies buffer
    ensures (i, k, buffer[..]) == LineAsWritten(chars, size, old(buffer[..]), 0, 0)
  {
    i := 0;
    k := 0;
    while i < size - 3
      invariant i <= size && k <= |chars|
      invariant LineAsWritten(chars, size, buffer[..], i, k) == LineAsWritten(chars, size, old(buffer[..]), 0, 0)
      decreases size - i
    {
      if k == |chars| {
        break;
      }
      var c := chars[k];
      ghost var before := buffer[..];
      k := k + 1;
      if c / 0x80 % 2 == 0 {
        buffer[i] := c % 0x100;
        assert buffer[..] == before[i := c % 0x100];
        i := i + 1;
        if c == NL {
          break;
        }
      } else {
        var b := FromCode(c);
        StringObj.Put(buffer, 0, b);
        assert buffer[..] == b + before[|b|..];
        i := i + |b|;
      }
    }
  }

  /**
   * `zis_stream_obj_read_line` with each character encoded at the current
   * end of the line: the UTF-8 encoding of the characters read, stopping
   * after a '\n', at the end of the stream, or once the line reaches
   * `size - 3` bytes; the rest of the buffer is untouched.
   */
  method ReadLine(chars: seq<WChar>, buffer: array<Byte>, size: nat) returns (i: nat, k: nat)
    requires 4 <= size <= buffer.Length
    requires forall j :: 0 <= j < |chars| ==> chars[j] <= MaxCode
    modifies buffer
    ensures k <= |chars| && i <= size
    ensures buffer[..i] == Encode(chars[..k]) && buffer[i..] == old(buffer[i..])
    ensures forall j :: 0 <= j < k - 1 ==> chars[j] != NL
    ensures (0 < k && chars[k - 1] == NL) || k == |chars| || i >= size - 3
  {
    i := 0;
    k := 0;
    while i < size - 3
      invariant k <= |chars| && i <= size
      invariant buffer[..i] == Encode(chars[..k]) && buffer[i..] == old(buffer[i..])
      invariant forall j :: 0 <= j < k ==> chars[j] != NL
      decreases size - i
    {
      if k == |chars| {
        break;
      }
      var c := chars[k];
      var b := FromCode(c);
      StringObj.EncodeNext(chars, k);
      StringObj.Put(buffer, i, b);
      i := i + |b|;
      k := k + 1;
      assert buffer[..i] == Encode(chars[..k]);
      if c == NL {
        return;
      }
    }
  }

  /** A line of "a", 'é' and '\n' read as written: 'é' overwrites the 'a' at the front and a stale byte is left at index 2. */
  lemma LineAsWrittenOverwritesFront()
    ensures var r := LineAsWritten([0x61, 0xe9, NL], 8, [0, 0, 0, 0, 0, 0, 0, 0], 0, 0);
            r.0 == 4 && r.2[..4] == [0xc3, 0xa9, 0, 0x0a] &&
            Encode([0x61, 0xe9, NL]) == [0x61, 0xc3, 0xa9, 0x0a]
  {
    var cs: seq<WChar> := [0x61, 0xe9, NL];
    var z: seq<Byte> := [0, 0, 0, 0, 0, 0, 0, 0];
    var s1 := z[0 := 0x61];
    var s2 := [0xc3, 0xa9] + s1[2..];
    var s3 := s2[3 := 0x0a];
    assert FromCode(0xe9) == [0xc3, 0xa9];
    assert LineAsWritten(cs, 8, s2, 3, 2) == (4, 3, s3);
    assert LineAsWritten(cs, 8, s1, 1, 1) == LineAsWritten(cs, 8, s2, 3, 2);
    assert LineAsWritten(cs, 8, z, 0, 0) == LineAsWritten(cs, 8, s1, 1, 1);
    assert s3[..4] == [0xc3, 0xa9, 0, 0x0a];
    assert Encode([NL]) == [0x0a];
    assert Encode([0xe9, NL]) == [0xc3, 0xa9, 0x0a];
  }

  /** U+0100 has bit 7 clear, so the loop as written stores it as the single byte 0, where its encoding is C4 80. */
  lemma LineAsWrittenTruncatesWide()
    ensures var r := LineAsWritten([0x100, NL], 4, [0xff, 0xff, 0xff, 0xff], 0, 0);
            r.0 == 1 && r.2[0] == 0 && Encode([0x100]) == [0xc4, 0x80]
  {
    var z: seq<Byte> := [0xff, 0xff, 0xff, 0xff];
    assert z[0 := 0x100 % 0x100] == [0, 0xff, 0xff, 0xff];
    assert LineAsWritten([0x100, NL], 4, z, 0, 0) == LineAsWritten([0x100, NL], 4, z[0 := 0], 1, 1);
    assert FromCode(0x100) == [0xc4, 0x80];
  }
}
