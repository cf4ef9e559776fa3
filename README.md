# ZiS runtime core in Dafny

A Dafny model of the core of ZiS, a small dynamic-language runtime written in
C, plus the Python developer tools that decode or scan its data. The model
covers:

- **Value words.** A tagged small integer (low bit 1, value shifted right
  by one), and the two-word object header that packs the type pointer, the
  2-bit GC state, the GC pointer and the mark bit. The GC-state predicates and
  write barrier of the memory manager, and the debugger's pretty-printer,
  decode the same words.
- **Bytecode instruction words.** A 7-bit opcode and operand fields packed
  into 32 bits.
- **Utilities.** The bitset, UTF-8 helpers, POSIX path functions, the
  arithmetic and hash helpers, and index conversion.
- **Runtime objects whose fields change in place.** The call stack with its
  frame-info pool, the `Function` object and the argument passing of an
  invocation, and the growable `Array`.
- **Integers, maps, symbols, strings and types.** Arbitrary-precision
  integers on 32-bit cells; the hash map with chained buckets; the symbol
  registry that interns byte strings; strings stored as 1, 2 or 4 bytes per
  character with the char type and length packed in one word; and type
  objects with their field and method tables.
- **Memory manager bookkeeping.** The conversion of size options into a
  configuration, the span set of GC roots, the bump allocator of a chunk,
  the big-space object list whose links carry a young-reference flag, the
  remembered set of old-to-young references, the size and initial header
  of a new object, and the choice of space and of GC type.
- **Modules.** The variable table of a module (a name map to indices and
  the variable slots), its parents and the lookup through them, and the
  loading of a native module definition: functions, types and variables
  bound in order, and the initializer.
- **Streams.** The in-memory string backend (seek and read) and the
  buffered reading of a stream object: bytes, the next UTF-8 character,
  lines, and the character-buffer pointer.
- **Assembler.** Besides the instruction buffer, label and constant tables
  and jump fixing of the assembler, the line reader of the text assembler:
  a mnemonic with one to three integer operands read as `sscanf` reads
  `%i`, or a pseudo-operation, with blank and comment lines skipped and
  errors recorded with their line number.
- **Front end.** The lexer's token scan (numbers in every base, escape
  sequences, operators, keywords and identifiers, comments and newlines
  that end or do not end a statement), the operator-precedence expression
  builder of the parser, and the code generator's frame bookkeeping: the
  sorted free list of registers with first-fit allocation and coalescing
  release, variables bound to registers, and the stack of frame, variable
  and loop scopes with one free list per scope kind.
- **Command line.** The option parser of the `zis` program (short options,
  their arguments, the rest arguments after `--`), the file-name part of a
  path, and the REPL's test for a statement that needs another line.
- **Developer tools.** The line counter `tools/cloc.py` (file types by
  pattern, the block-comment measure, the per-line counting loop and the
  grouped totals) and the doc-string collector `tools/cdocstr.py`
  (collecting `/*#DOCSTR#` comments, building title and description, and
  escaping backslashes for Markdown).

Objects of the runtime are abstract values (`Values.Value`): a small
integer, `nil`, a tuple, an opaque reference, and a slot not yet written.
The runtime writes the all-ones word into cleared slots (`memset` with
0xff); that word is the small integer -1, written `Values.Filler`.
Word-level code is modelled on unbounded integers with the word width
(`Words.Width`, 32 or 64) as a parameter and wrap-around written out, or on
`bv32`/`bv64` where the source is pure bit manipulation. Runtime panics and
`assert`s that guard callers become preconditions or `ok = false` results
that change nothing.

## Model

| member | source | states |
|---|---|---|
| SmallInt.Min | src/core/smallint.h:18 | the smallest small int is a quarter of minus the word modulus (`INTPTR_MIN >> 1`) |
| SmallInt.Max | src/core/smallint.h:19 | the largest small int is a quarter of the modulus minus one (`INTPTR_MAX >> 1`) |
| SmallInt.FromPtr | src/core/smallint.h:33-36 | decoding a tagged word gives a value in [MIN, MAX] whose double plus one is the word read as signed |
| SmallInt.TagWord | src/core/smallint.h:40 | `(val << 1)` with the low bit set, of any signed word, is an odd unsigned word |
| SmallInt.ToPtr | src/core/smallint.h:39-43 | encoding an in-range value gives an odd word that decodes back to the value |
| SmallInt.TryToPtr | src/core/smallint.h:46-51 | the result is non-null exactly when the value is in range, and then equals `ToPtr` |
| SmallInt.RoundTripIff | src/core/smallint.h:46-51 | tagging then decoding gives the value back if and only if it is in range |
| SmallInt.Hash | src/core/smallint.h:53-58 | the hash is an unsigned word (bit reinterpretation) |
| SmallInt.FromPtrToPtr | src/core/smallint.h:33-43 | every tagged word is the encoding of its own decoding |
| SmallInt.ToPtrInjective | src/core/smallint.h:39-43 | distinct in-range values have distinct encodings |
| SmallInt.HashInjective | src/core/smallint.h:53-58 | the hash is injective |
| ZisGdb.SmiValueIsFromPtr | tools/zis_gdb.py:57-66 | for an odd raw word the printer's value equals the runtime's decoding |
| ZisGdb.SmiValueOfToPtr | tools/zis_gdb.py:57-66 | the printer decodes every encoded small int back to its value |
| ZisGdb.SmiValueBoundaries | tools/zis_gdb.py:57-66 | all-ones prints -1, 1 prints 0, and the words at the sign boundary print MAX and MIN |
| ZisGdb.TypePtr | tools/zis_gdb.py:68-71 | the type pointer is `_1` with its two low bits cleared: 4-aligned and within 3 below `_1` |
| ZisGdb.TypeNameFromAddr | tools/zis_gdb.py:84-94 | no context gives no name |
| ZisGdb.NameInFirstMatch | tools/zis_gdb.py:87-94 | the first global equal to the address decides: no name if its name is empty, else the name with a `type_` prefix rewritten to `builtin/` |
| ZisGdb.NameInNoMatch | tools/zis_gdb.py:87-95 | no matching global gives no name |
| ZisGdb.ObjType | tools/zis_gdb.py:68-73 | a readable object prints its type name when the type pointer resolves to one, and `<0x…>` of the type pointer otherwise; an unreadable one is a memory error |
| ZisGdb.GcStateName | tools/zis_gdb.py:25-80 | the state name is NEW, MID, OLD or BIG exactly for `_1 & 3` = 0, 1, 2, 3 |
| ZisGdb.ObjGcInfo | tools/zis_gdb.py:75-82 | the GC info text shows the state name and whether bit 0 of `_2` is set |
| ZisGdb.ToString | tools/zis_gdb.py:43-52 | a tagged word prints as `smallint{v}`; any other word as its hex address, type and GC info |
| ZisGdb.ToStringOfSmallInt | tools/zis_gdb.py:43-45 | every encoded small int prints as `smallint{` its decimal value `}` |
| ObjectMeta.GcStateOf | core/object.h:64-65 | the GC state is below 4 |
| ObjectMeta.GcStateBit0 | core/object.h:67-68 | bit 0 of the state is 0 or 1 |
| ObjectMeta.GcStateBit1 | core/object.h:70-71 | bit 1 of the state is 0 or 2 |
| ObjectMeta.GcStateBits | core/object.h:64-71 | the state is the union of its two bits |
| ObjectMeta.HeaderSplit | core/object.h:50-65 | the type pointer and the state together make up `_1` |
| ObjectMeta.HeaderDisjoint | core/object.h:50-65 | the type pointer and the state share no bit |
| ObjectMeta.TypePtrFits | core/object.h:43-51 | the type pointer read back is 4-aligned |
| ObjectMeta.GcPtrFits | core/object.h:43-58 | the GC pointer read back is 4-aligned |
| ObjectMeta.InitTypePtr | core/object.h:39-51 | after init with an aligned type pointer it reads back unchanged |
| ObjectMeta.InitGcState | core/object.h:39-65 | after init with a state below 4 it reads back unchanged |
| ObjectMeta.SetTypePtrGet | core/object.h:47-51 | setting the type pointer makes it read back |
| ObjectMeta.SetTypePtrKeepsState | core/object.h:47-48 | setting the type pointer keeps the GC state |
| ObjectMeta.SetGcPtrGet | core/object.h:54-58 | setting an aligned GC pointer makes it read back |
| ObjectMeta.SetGcPtrKeepsLow | core/object.h:54-55 | setting the GC pointer keeps the two low bits of `_2`, mark included |
| ObjectMeta.SetGcStateGet | core/object.h:61-65 | setting the state makes it read back |
| ObjectMeta.SetGcStateKeepsType | core/object.h:61-62 | setting the state keeps the type pointer |
| ObjectMeta.MarkSets | core/object.h:74-81 | after setting the mark it tests true |
| ObjectMeta.MarkKeepsGcPtr | core/object.h:74-75 | setting the mark keeps the GC pointer |
| ObjectMeta.UnmarkClears | core/object.h:77-81 | after resetting the mark it tests false |
| ObjectMeta.UnmarkKeepsGcPtr | core/object.h:77-78 | resetting the mark keeps the GC pointer |
| ObjectMeta.RefBytes | core/object.h:191-192 | the bytes start one pointer per slot after the body, past every slot |
| ObjectMeta.Meta.Init | core/object.h:39-40 | both words are set, and the type pointer and state read back |
| ObjectMeta.Meta.SetTypePtr | core/object.h:47-48 | only `_1` changes; the new type pointer reads back and the state is kept |
| ObjectMeta.Meta.SetGcPtr | core/object.h:54-55 | only `_2` changes; the new GC pointer reads back and the low bits are kept |
| ObjectMeta.Meta.SetGcState | core/object.h:61-62 | only `_1` changes; the new state reads back and the type pointer is kept |
| ObjectMeta.Meta.SetGcMark | core/object.h:74-75 | only `_2` changes; the mark is set and the GC pointer kept |
| ObjectMeta.Meta.ResetGcMark | core/object.h:77-78 | only `_2` changes; the mark is clear and the GC pointer kept |
| ObjmemGcState.YoungIffNewOrMid | core/objmem.h:41-53 | an object is young exactly when its state is NEW or MID (bit 1 clear) |
| ObjmemGcState.YoungNewIffState | core/objmem.h:56-61 | a young object is NEW exactly when its state is NEW (bit 0 clear) |
| ObjmemGcState.OldBigIffState | core/objmem.h:63-69 | an old object is BIG exactly when its state is BIG (bit 0 set) |
| ObjmemGcState.O2yRecorder.WriteBarrier | core/objmem.h:78-88 | the object is recorded exactly when it is old and the value is a young heap object; nothing else is recorded |
| ObjmemGcState.RefVar.MoveObject | core/objmem.h:292-299 | a marked object's reference becomes its GC pointer; an unmarked one stays |
| ObjmemGcState.Finalizer.VisitWeakRef | core/objmem.h:231-244 | FINI finalizes exactly the unmarked objects, FINI_Y skips old ones, MOVE only forwards |
| Instr.AwRoundTrip | core/instr.h:46-70 | opcode and a 25-bit unsigned A read back unchanged |
| Instr.AswRoundTrip | core/instr.h:49-75 | opcode and a 25-bit signed A read back unchanged (arithmetic shift) |
| Instr.ABwRoundTrip | core/instr.h:52-87 | opcode, 9-bit A and 16-bit unsigned B read back unchanged |
| Instr.ABswRoundTrip | core/instr.h:55-81 | opcode, 9-bit A and 16-bit signed B read back unchanged |
| Instr.ABCRoundTrip | core/instr.h:58-94 | opcode, 9-bit A and 8-bit B and C read back unchanged |
| Instr.ABsCsRoundTrip | core/instr.h:61-101 | opcode, 9-bit A and signed 8-bit B and C read back unchanged |
| Instr.OversizedAInABC | core/instr.h:58-59 | an oversized A is masked to 9 bits and never reaches the opcode, B or C |
| Instr.OversizedAInABw | core/instr.h:52-53 | an oversized A is masked to 9 bits and never reaches the opcode or B |
| Bitset.ExtractIndex | core/bits.h:65-73 | bit i is in cell i / W at offset i % W with mask 2^offset |
| Bitset.CountTz | core/bits.h:15-25 | the count of trailing zeros of a non-zero cell is its lowest set bit |
| Bitset.SetInCell | core/bits.h:85-90 | the cell gets exactly one more set bit, the chosen one |
| Bitset.ResetInCell | core/bits.h:94-100 | the cell loses exactly the chosen bit |
| Bitset.SetBit | core/bits.h:85-90 | after `set(i)` bit i tests true and every other bit is unchanged |
| Bitset.ResetBit | core/bits.h:94-100 | after `reset(i)` bit i tests false and every other bit is unchanged |
| Bitset.TrySetBit | core/bits.h:103-113 | `try_set` leaves the same cells as `set` |
| Bitset.TryResetBit | core/bits.h:115-124 | `try_reset` leaves the same cells as `reset` |
| Bitset.Clear | core/bits.h:127-130 | the first size/cell-bytes cells become 0 and the rest are unchanged |
| Bitset.ForeachSetInCell | core/bits.h:133-150 | the set bits of one cell are visited once each, ascending |
| Bitset.ForeachSet | core/bits.h:133-150 | every set bit of the bitset is visited exactly once, in ascending order |
| Strutil.LenFromCode | core/strutil.c:105-115 | 1, 2, 3, 4 bytes for code points below 0x80, 0x800, 0x10000, 0x200000, else 0 |
| Strutil.Len1Mb | core/strutil.c:117-126 | lead bytes 110xxxxx, 1110xxxx, 11110xxx give 2, 3, 4; continuation or 0xf8.. give 0 |
| Strutil.FromCode | core/strutil.c:40-66 | the encoding has `LenFromCode` bytes, a lead byte announcing that length and continuation bytes after it |
| Strutil.ToCode | core/strutil.c:68-103 | decoding fails (0, code unchanged) on a bad lead byte or a sequence past the end; otherwise it consumes the announced length |
| Strutil.ToCodeFromCode | core/strutil.c:40-103 | decoding the encoding of any code point up to 0x1fffff gives it back with its length |
| Strutil.OverlongAccepted | core/strutil.c:68-103 | the overlong form C0 80 decodes to 0 (no overlong check) |
| Strutil.LenS | core/strutil.c:128-156 | the checked length is the lead length, -1-k when byte k is not a continuation byte, -1 when the input is too short |
| Strutil.LenSFromCode | core/strutil.c:128-156 | the checked length of an encoded code point is its encoded length |
| Strutil.U8StrLen | core/strutil.c:158-173 | the loop counts the lead bytes before the terminator |
| Strutil.FindPos | core/strutil.c:203-214 | a found position lies inside the string |
| Strutil.U8StrFindPos | core/strutil.c:203-214 | the loop computes `FindPos`: n characters on, or the terminator, or nothing on an invalid lead byte |
| Strutil.EncodedCount | core/strutil.c:158-173 | the length of an encoded, terminated text is its number of code points |
| Strutil.EncodedFindPos | core/strutil.c:203-214 | in an encoded text, the k-th character starts at the byte length of the first k encodings |
| Strutil.EncodedFindPosPastEnd | core/strutil.c:203-214 | asking for more characters than there are stops at the terminator |
| Strutil.U8StrFindEnd | core/strutil.c:216-227 | the result is just past the last character whose lead byte lies within max_bytes, or nothing |
| Strutil.Upper | core/strutil.c:35-38 | the result is never a lower-case letter and differs only for lower-case letters |
| Strutil.ToUpper | core/strutil.c:35-38 | exactly the first n bytes are upper-cased, the rest unchanged |
| Strutil.UpperIdempotent | core/strutil.c:35-38 | upper-casing twice is upper-casing once |
| Strutil.CharDigit | core/strutil.c:264-266 | '0'-'9' give 0-9, letters of either case give 10-35, everything else UINT_MAX |
| Strutil.CharDigitOfDigitChar | core/strutil.c:264-266 | the digit value of each digit character is its value (inverse of `Numerals.DigitChar`) |
| Fsutil.LastIndex | core/fsutil.c:46-58 | the last occurrence of a character, or none |
| Fsutil.ExtDot | core/fsutil.c:60-78 | the extension dot is the last '.' of the final component and not its first character |
| Fsutil.Filename | core/fsutil.c:218-229 | the file name is a separator-free suffix of the path |
| Fsutil.FilenameEmpty | core/fsutil.c:218-229 | the file name is empty exactly for an empty path or one ending with '/' |
| Fsutil.StemExtension | core/fsutil.c:231-277 | stem followed by extension is the file name |
| Fsutil.ExtensionShape | core/fsutil.c:60-277 | a non-empty extension starts with '.', has no other '.' or '/', and leaves a non-empty stem |
| Fsutil.WithExtensionRoundTrip | core/fsutil.c:303-318 | stripping then re-adding the extension gives the path back; replacing appends the new one |
| Fsutil.ParentFilename | core/fsutil.c:279-301 | for a path with a '/' that is not the first character or the last, parent + '/' + file name is the path |
| Fsutil.JoinCases | core/fsutil.c:199-216 | "foo"+"bar" is "foo/bar", a trailing '/' on the first is not doubled, an absolute second path wins |
| Fsutil.JoinedExtDot | core/fsutil.c:60-78 | the extension dot of dir/comp is that of the component, shifted |
| Fsutil.JoinedStem | core/fsutil.c:231-267 | the stem of dir/comp is the component up to its extension dot |
| Fsutil.ExtensionTxtExample | core/fsutil.c:269-277 | "/foo/bar.txt" has extension ".txt" |
| Fsutil.ExtensionDotExample | core/fsutil.c:60-78 | "/foo/." has no extension |
| Fsutil.ExtensionDotDotExample | core/fsutil.c:60-78 | "/foo/.." has no extension |
| Fsutil.ExtensionHiddenExample | core/fsutil.c:60-78 | "/foo/.hidden" has no extension |
| Fsutil.ExtensionDoubleDotExample | core/fsutil.c:60-78 | "/foo/..bar" has extension ".bar" |
| Fsutil.StemMultipleDotsExample | core/fsutil.c:246-267 | "foo.bar.baz.tar" has stem "foo.bar.baz" |
| Fsutil.FilenameParentExamples | core/fsutil.c:218-301 | "/foo/bar/" has an empty file name, "//host" has "host", and the parent of "/" is "/" |
| Fsutil.ParentTrailingSepAsWritten | core/fsutil.c:284-287 | as written, the parent of "/var/tmp/" is "/var/tm" |
| Fsutil.ParentIntendedTrailingSep | core/fsutil.c:279-301 | the corrected parent ignores trailing '/', agrees with `parent` otherwise, and gives "/var" for "/var/tmp/" |
| Fsutil.CopyN | core/fsutil.c:166-168 | the characters are written at the offset and nothing else changes |
| Fsutil.PathCopy | core/fsutil.c:160-164 | the path is copied with a terminator and its length returned |
| Fsutil.ConcatN | core/fsutil.c:179-188 | the two paths are written one after the other with a terminator, and the sum of their lengths returned |
| Fsutil.JoinN | core/fsutil.c:199-216 | the buffer holds `Join(p1, p2)` and its length is returned; an absolute second path is copied without a terminator, whatever the first path; only the concatenating branches demand a non-empty first path and a result below the path limit |
| Fsutil.PathFilename | core/fsutil.c:218-229 | the buffer holds the file name, terminated, and its length is returned |
| Fsutil.StemLen | core/fsutil.c:231-244 | the length computed is the stem's |
| Fsutil.PathStem | core/fsutil.c:246-267 | the stem's length is returned, and written when a buffer is given |
| Fsutil.PathExtension | core/fsutil.c:269-277 | the extension's length is returned, and written when a buffer is given |
| Fsutil.PathParent | core/fsutil.c:279-301 | the buffer holds `Parent(path)`, terminated, and its length is returned |
| Fsutil.PathWithExtension | core/fsutil.c:303-318 | the buffer holds the path with its extension replaced or removed; only a new extension must keep prefix plus extension below the path limit |
| Algorithm.MulOverflow | src/core/algorithm.c:21-29 | overflow is flagged exactly when the product reaches 2^32, and otherwise the product is stored |
| Algorithm.PowU32 | src/core/algorithm.c:31-48 | exponent 0 gives 1; otherwise b^e when it fits in 32 bits and 0 when it does not |
| Algorithm.HashPointer | src/core/algorithm.c:70-73 | the hash is the address divided by 16 |
| Algorithm.HashPointerAligned | src/core/algorithm.c:70-73 | distinct 16-aligned addresses hash differently |
| Algorithm.HashTruncate | src/core/algorithm.c:188-194 | the truncated hash is an unsigned word |
| Algorithm.HashTruncateRange | src/core/algorithm.c:188-194 | read as signed, the truncated hash is in small-int range and differs from the input by 0 or half the modulus |
| Algorithm.HashTruncateKeepsSmall | src/core/algorithm.c:188-194 | a hash already below a quarter of the modulus is kept |
| Algorithm.RotlInverse | src/core/algorithm.c:79-85 | rotating left by r then by 32 - r gives the word back |
| Algorithm.MurmurHash3 | src/core/algorithm.c:90-143 | the block loop, tail and finalisation compute the MurmurHash3_x86_32 function |
| Algorithm.HashBytes | src/core/algorithm.c:145-154 | the hash of bytes is in [0, small-int MAX] |
| Algorithm.RoundUpMultipleOf | core/algorithm.h:10-11 | rounding up to a power of two gives a multiple of it |
| Algorithm.RoundUpLeast | core/algorithm.h:10-11 | the rounded value is at least x and below x + n |
| Algorithm.RoundUpIdempotent | core/algorithm.h:10-11 | rounding up twice is rounding up once |
| Algorithm.UintInRangeIff | core/algorithm.h:14-15 | the single wrap-around comparison holds exactly when lo ≤ x ≤ hi |
| Object.CompareFast | src/core/object.c:53-65 | identical objects compare EQ, two small ints compare by value, anything else is left to the method call |
| Object.CompareFastAntisymmetric | src/core/object.c:57-65 | LT one way is GT the other; EQ is symmetric |
| Object.CompareFastTransitive | src/core/object.c:57-65 | LT between small ints is transitive |
| Object.EqualsFast | src/core/object.c:87-101 | identical objects are equal; non-identical small ints or symbols are unequal |
| Object.SmallIntsDecided | src/core/object.c:57-101 | two small ints are compared and tested for equality by value alone |
| Object.IndexConvertSpec | src/core/object.c:200-214 | an index converts exactly when 1 ≤ i ≤ length or -length ≤ i ≤ -1, to i - 1 or length + i |
| Object.IndexZeroInvalid | src/core/object.c:200-206 | index 0 is invalid |
| Object.IndexFrontBackAgree | src/core/object.c:200-214 | offset + 1 and offset - length name the same element |
| Object.RangeConvertForward | src/core/object.c:217-234 | for a converted begin ≤ end, offset = begin and count = end - begin + 1, and as written agrees with the corrected version |
| Object.RangeConvertIntendedSpec | src/core/object.c:217-234 | the corrected range conversion gives an empty range exactly for end = begin - 1, and fails otherwise when end precedes begin |
| Object.RangeConvertAsWrittenAcceptsReversed | src/core/object.c:222-229 | as written, (-1, 2) on a length-10 sequence gives an empty range at 9 instead of failing |
| Object.RangeConvertAsWrittenRejectsEmptyAtOne | src/core/object.c:222-229 | as written, (2, 1) fails instead of giving the empty range at 1 |
| FuncObj.MetaConvSpec | src/core/funcobj.c:19-34 | the conversion succeeds exactly when na plus the magnitude of no is at most nl, and nl < 65535; na is copied, nr = nl + 1, and no = 255 exactly for native -1 |
| FuncObj.MetaConvCoversParams | src/core/funcobj.c:19-34 | a converted meta has registers for REG-0 and every parameter slot, as `invocation_prepare` asserts |
| FuncObj.AllocBytesSize | src/core/funcobj.c:40-56 | the recorded size is the fixed part plus 4 bytes per word, rounded up to the pointer size |
| FuncObj.BytecodeLength | src/core/funcobj.c:106-109 | the length is the number of whole words after the fixed part |
| FuncObj.BytecodeLengthOfAlloc | src/core/funcobj.c:68-109 | the length read back is the length created on 32-bit targets, rounded up to even on 64-bit ones |
| FuncObj.Function.NewBytecode | src/core/funcobj.c:68-80 | exactly the given words are stored, `native` is NULL, the tables are the empty slots and the module the unnamed one |
| FuncObj.Function.SetResources | src/core/funcobj.c:82-94 | only the tables given as non-NULL are replaced; nothing else changes |
| Stack.CallstackSize | core/stack.c:95-103 | size 0 becomes the default and sizes below the minimum are raised to it |
| Stack.SlotCount | core/stack.c:95-114 | a call stack has at least two slots |
| Stack.DefaultSlotCount | core/stack.c:12-114 | the default stack has 1013 slots on either width |
| Stack.NoOverflowInBounds | core/stack.c:125-137 | the corrected guard passes exactly when the new top stays inside the slots |
| Stack.OverflowsAsWrittenMissesLastSlot | core/stack.c:128 | as written, 10 slots from an empty stack pass the guard although the new top is past the end |
| Stack.OverflowGuardsDiffer | core/stack.c:128-152 | the written and corrected guards differ exactly when the new top is one past the last slot |
| Stack.Frames | core/stack.c:168-189 | one view per frame, newest first |
| Stack.FramesShape | core/stack.c:168-189 | frame k has index k and lies between its previous frame and its top |
| Stack.FirstNonZero | core/stack.c:168-189 | the result is the first non-zero callback result, or 0 when all are 0 |
| Stack.Callstack.Create | core/stack.c:95-114 | a fresh stack with `SlotCount` slots, top and frame at slot 0, slot 0 holding 0, and empty lists |
| Stack.Callstack.FrameSize | core/stack.c:125-137 | frame plus size is top plus one |
| Stack.Callstack.FiPush | core/stack.c:39-55 | the new info is the list head; a pooled node is reused when there is one |
| Stack.Callstack.FiPop | core/stack.c:57-68 | the head is dropped and pooled unless the pool holds 20; the free count is the pool length |
| Stack.Callstack.Enter | core/stack.c:125-137 | fails without change when fewer than n slots remain; otherwise frame = top + 1, top += n, the n slots are cleared and the previous frame and return ip recorded |
| Stack.Callstack.ClearRange | core/stack.c:83-88 | the range is cleared and nothing else changes |
| Stack.Callstack.Leave | core/stack.c:139-147 | the frame becomes the previous frame and top the old frame minus one; the dropped info goes to the pool unless it holds 20, and the free count is the pool length |
| Stack.Callstack.AllocTemp | core/stack.c:149-156 | fails without change on overflow; otherwise top rises by n and the new slots are cleared |
| Stack.Callstack.FreeTemp | core/stack.c:158-166 | fails when n exceeds the temporaries above the frame's top; otherwise top falls by n |
| Stack.Callstack.ForeachFrame | core/stack.c:168-189 | the loop returns the first non-zero callback result over the frames newest first |
| Invoke.ArgcAcceptedSpec | core/invoke.c:66-76 | argc is accepted exactly when argc = na, or argc > na and the function is variadic or argc ≤ na + no |
| Invoke.ExpectedArgc | core/invoke.c:26-41 | the qualifier is empty exactly without optional arguments and the count is na, or na + no after "at most"; for every rejected argc the given count differs from the reported one, lies below an "at least" and above an "at most" |
| Invoke.Prepare | core/invoke.c:48-83 | a non-function gives the type error, a rejected argc the argc error, both without entering a frame; otherwise a frame of nr registers is entered |
| Invoke.ArgsLayoutSpec | core/invoke.c:91-115 | the parameter slots hold the arguments, then nil for each missing optional one, or the extras as a tuple in slot na |
| Invoke.PassArgsVec | core/invoke.c:85-116 | the slots after REG-0 of the new frame hold the argument layout; no other slot changes |
| Invoke.WriteExactArgs | core/invoke.c:91-102 | argc = na: the arguments are copied, then nils or the empty tuple |
| Invoke.WriteOptionalArgs | core/invoke.c:104-108 | na < argc ≤ na + no: the arguments are copied and the missing optional ones are nil |
| Invoke.WriteRestArgs | core/invoke.c:109-114 | variadic with extras: na arguments are copied and the extras become a tuple |
| Invoke.WriteArgs | core/invoke.c:91-115 | the parameter slots receive the argument layout for any accepted argc; slots before and after are unchanged |
| Invoke.DisCollect | core/invoke.c:156-160 | the loop collects the previous frame's registers named by the indices, in order |
| Invoke.Gather | core/invoke.c:118-126 | argument i is the previous frame's register `regs[i]` |
| Invoke.PassArgsDis | core/invoke.c:128-165 | the same layout as `PassArgsVec`, reading the arguments through the register indices |
| Invoke.DisCopy | core/invoke.c:118-126 | the gathered registers are written at the destination and nothing else changes |
| Invoke.InvokeFunc | core/invoke.c:258-263 | a native function is called, any other is executed as bytecode |
| ObjVec.VecCopy | core/arrayobj.c:53 | the values are written at the destination and nothing else changes |
| ObjVec.VecMove | core/arrayobj.c:212-251 | the source range, read before the move, ends up at the destination even when they overlap |
| ObjVec.VecZero | core/arrayobj.c:35-55 | the range holds the filler and nothing else changes |
| ArrayObj.Slots.Length | core/arrayobj.h:35-42 | the length is the stored count minus 1 |
| ArrayObj.Slots.Set | core/arrayobj.h:54-60 | only slot i changes |
| ArrayObj.SlotsNew | core/arrayobj.c:24-40 | no slots gives the shared empty storage; otherwise fresh storage holding the values, or the filler |
| ArrayObj.SlotsNew2 | core/arrayobj.c:42-65 | length 0 gives the shared empty storage; otherwise the smaller of len and the other length of values copied, then the filler |
| ArrayObj.GrownCapacity | core/arrayobj.c:148-200 | growth doubles the capacity, or makes it 4 below 2 |
| ArrayObj.RemoveInserted | core/arrayobj.c:181-256 | removing an inserted element gives the original elements back |
| ArrayObj.GrownForInsertAsWrittenLeavesUnwritten | core/arrayobj.c:198-214 | as written, growing a full 4-element array by an insert at the front leaves 3 new slots not written |
| ArrayObj.GrowForInsertAsWritten | core/arrayobj.c:198-214 | as written, the grown storage holds the inserted elements and unwritten slots after them |
| ArrayObj.GrowForInsert | core/arrayobj.c:198-214 | corrected: the grown storage holds the inserted elements and the filler after them |
| ArrayObj.ShiftInsert | core/arrayobj.c:212-213 | the elements from pos move up one and v takes pos |
| ArrayObj.ShiftRemove | core/arrayobj.c:250-253 | the elements after pos move down one and the last slot gets the filler |
| ArrayObj.ShrinkForRemove | core/arrayobj.c:233-253 | storage of exactly len slots holds the elements without pos, then the filler |
| ArrayObj.Array.New | core/arrayobj.c:79-100 | n elements from the values or the filler, in storage of exactly n slots |
| ArrayObj.Array.GetChecked | core/arrayobj.h:108-114 | NULL exactly when i ≥ length, else element i |
| ArrayObj.Array.SetChecked | core/arrayobj.h:125-132 | false and no change exactly when i ≥ length, else element i is replaced |
| ArrayObj.Array.Front | core/arrayobj.h:148-152 | NULL for an empty array, else the first element |
| ArrayObj.Array.Back | core/arrayobj.h:155-159 | NULL for an empty array, else the last element |
| ArrayObj.Array.Append | core/arrayobj.c:139-162 | v becomes the last element, earlier ones unchanged; full storage grows to `GrownCapacity` |
| ArrayObj.Array.Pop | core/arrayobj.c:164-179 | NULL on empty; otherwise the last element is returned and removed, and its slot gets the filler |
| ArrayObj.Array.Insert | core/arrayobj.c:181-217 | corrected: pos > length fails and changes nothing; otherwise v is inserted at pos and full storage grows |
| ArrayObj.Array.InsertGrowing | core/arrayobj.c:198-214 | full storage is replaced by fresh storage of `GrownCapacity` slots holding the inserted elements |
| ArrayObj.Array.InsertInPlace | core/arrayobj.c:209-214 | with room left, the elements from pos shift up in the same storage and v takes pos |
| ArrayObj.Array.Remove | core/arrayobj.c:219-256 | pos ≥ length fails; otherwise the element is removed, shrinking storage to length when at most half used by at least 16 |
| ArrayObj.MxIndexSpec | core/arrayobj.c:262-280 | 1..len name element i - 1, -len..-1 element len + i, and 0 or anything else nothing |
| ArrayObj.MxInsertIndexSpec | core/arrayobj.c:317-333 | insertion accepts 1..len+1 and -(len+1)..-1, with -1 meaning the end |
| ArrayObj.MxGetElement | core/arrayobj.c:258-283 | a small-int index naming an element gives it; anything else gives NULL |
| ArrayObj.MxSetElement | core/arrayobj.c:285-311 | a small-int index naming an element replaces it; otherwise false and no change |
| ArrayObj.MxInsertElement | core/arrayobj.c:313-338 | a valid insertion index inserts there; otherwise false and no change |
| ArrayObj.MxRemoveElement | core/arrayobj.c:340-367 | a valid index removes that element (-1 pops); otherwise false and no change |
| BigInt.ZeroRange | core/intobj.c:43-46 | cells lo..hi become zero and every other cell keeps its value |
| BigInt.CopyCells | core/intobj.c:48-53 | count cells of the source land at the target offset and every other cell keeps its value |
| BigInt.Width | core/intobj.c:55-59 | the bit width of a normalised magnitude lies in the top cell: above 32·(len - 1) and at most 32·len |
| BigInt.WidthBounds | core/intobj.c:55-59 | the width w is the bit length of the value: 2^(w-1) ≤ value < 2^w |
| BigInt.SelfMulAdd1 | core/intobj.c:61-74 | the new cells plus the returned carry times 2^(32·len) equal the old value times b plus c |
| BigInt.SelfDiv1 | core/intobj.c:76-92 | for b ≠ 0 the old value is the new value times b plus the returned remainder, and the remainder is below b |
| BigInt.CellDecides | core/intobj.c:105-111 | for equal lengths, the topmost differing cell decides the order of the two magnitudes |
| BigInt.Cmp | core/intobj.c:94-114 | on normalised magnitudes the result is -1, 0 or 1 and is negative exactly when a < b and zero exactly when a = b |
| BigInt.Add | core/intobj.c:116-142 | with more result cells than either operand, the result's value is the sum, so no carry is left over |
| BigInt.SubCells | core/intobj.c:173-194 | for x ≥ z the borrow loop writes x - z and ends without a borrow |
| BigInt.Sub | core/intobj.c:144-195 | the result is true exactly when a < b and the cells hold the magnitude of a - b; equal inputs give zero and false |
| BigInt.SelfSub | core/intobj.c:197-225 | for a ≥ b the cells of a become a - b |
| BigInt.MulRowCells | core/intobj.c:255-274 | the inner loop adds a·b_k·2^(32k) less the returned carry times 2^(32(k + len(a))), and each double-cell sum fits, so the overflow panic is never reached |
| BigInt.MulRow | core/intobj.c:253-289 | one row adds a·b_k·2^(32k) to the result; the row's carry lands in the still-zero cell k + len(a) without overflow |
| BigInt.Mul | core/intobj.c:232-291 | with at least len(a) + len(b) result cells, the result's value is the product |
| BigInt.MulCarryCheckAsWrittenMisfires | core/intobj.c:283-284 | for a = b = [0xffffffff] the final carry fits in the empty cell, yet the check written after `y += carry` reports an overflow |
| BigInt.CarryOverflowAsWrittenOnEmptyCell | core/intobj.c:283-284 | adding a carry to an empty cell never overflows, yet the as-written check fires for every carry ≥ 2^31 |
| BigInt.Shl | core/intobj.c:391-424 | into at least y_len_min cells, the result's value is a·2^n, whole cells then bits |
| BigInt.ShlLoop | core/intobj.c:408-413 | the bit loop writes a·2^bo shifted by the cell offset, less the carry out of the top cell, which it returns |
| BigInt.ShrAll | core/intobj.c:436-439 | shifting right by at least the whole vector's width gives zero |
| BigInt.ShrValue | core/intobj.c:433-441 | only the cells from the cell offset on matter: a >> n is a[co..] >> (n mod 32) |
| BigInt.ShrBits | core/intobj.c:444-457 | the bit loop writes a[co..] / 2^bo into y_len_min cells, one fewer when the top cell shifts out entirely |
| BigInt.Shr | core/intobj.c:426-462 | into at least y_len_min cells, the result's value is a / 2^n (rounded down) |
| BigInt.Complement | core/intobj.c:377-389 | a non-zero magnitude is replaced by its two's complement 2^(32·len) - a |
| BigInt.TruncAsWritten | core/intobj.c:464-482 | the result keeps the cells below n/32, masks cell n/32 to n - n/32 bits as written, and zeroes the rest |
| BigInt.TruncAsWrittenKeepsHighCell | core/intobj.c:471 | truncating 2^32 to 32 bits keeps it at 2^32 instead of giving 0 |
| BigInt.Trunc | core/intobj.c:464-482 | corrected (bit count `n % 32`): the result's value is a modulo 2^n |
| BigInt.TruncValue | core/intobj.c:464-482 | the corrected cells keep the low n bits: their value is a mod 2^n, for any vector and any n the cells cover |
| BigInt.TruncTwoCellsIsZero | core/intobj.c:471 | corrected, truncating 2^32 to 32 bits gives 0 |
| IntObj.Trim | core/intobj.c:597-601 | dropping leading zero cells keeps the value, and what is left is empty or ends in a non-zero cell |
| IntObj.TrimZero | core/intobj.c:597-599 | when every cell is zero the value is 0, so the small int 0 is right |
| IntObj.ShrinksToSmallIff | core/intobj.c:604-635 | the one-cell and two-cell branches, on 32- and 64-bit words, return a small int exactly when the signed value is in small-int range |
| IntObj.TrimCount | core/intobj.c:593-601 | the loop leaves the count of cells once leading zero cells are dropped, 0 when all are zero |
| IntObj.ToSmall | core/intobj.c:604-635 | a normalised magnitude gives a small int exactly when its signed value is in range, and then that value |
| IntObj.Shrink | core/intobj.c:592-649 | the result denotes the same integer; it is a small int exactly when the value is in range; otherwise a normalised object, fresh with exactly its cells when 4 or more would be unused, else x itself with its count trimmed |
| IntObj.OrSmallint | core/intobj.c:659-683 | a 64-bit value gives a small int exactly when it is in range, otherwise a fresh normalised object of one or two cells denoting it |
| IntObj.ScanEndChars | core/intobj.c:699-707 | the scan passes only digits of the base and '_', and stops at the end of the text or at another character |
| IntObj.DigitsOf | core/intobj.c:699-707 | the digits filtered out of the scanned text are digits of the base and no more than the text |
| IntObj.ScanDigits | core/intobj.c:699-707 | the loop stops where the scan ends and counts exactly the digits passed |
| IntObj.BitsFor | core/intobj.c:713 | the bit count is the least k with m ≤ 2^k, the exact `ceil(log2 m)` |
| IntObj.ScannedIsTextValue | core/intobj.c:715-743 | the value the loops accumulate over the scanned text is the value of its digits |
| IntObj.ScannedBound | core/intobj.c:715-743 | the accumulated value stays below base^(digits read) |
| IntObj.AccumulateSmall | core/intobj.c:715-726 | the small-int loop computes the digits' value, which never exceeds `ZIS_SMALLINT_MAX` when the bit estimate is below the small-int width |
| IntObj.MulAddDigit | core/intobj.c:740-742 | one multiply-add step multiplies the cells by the base and adds the digit, and no carry leaves the vector |
| IntObj.AccumulateCells | core/intobj.c:736-743 | the cell loop leaves the digits' value in the zeroed cells, without carry, when base^digits fits their weight |
| IntObj.ParseBig | core/intobj.c:727-745 | nothing exactly when the cell count exceeds 65535; otherwise the shrunk object or small int denoting the signed value of the digits |
| IntObj.ParseInt | core/intobj.c:685-746 | the end and the result agree with `ParseSpec`: no digit gives nothing and the end after the sign; too many cells give nothing; otherwise the signed value, small exactly when in range |
| IntObj.ParseIntText | core/intobj.c:685-746 | reading back the printed text of any integer in any base, followed by any non-digit, gives the integer and the text's length |
| IntObj.ParseExampleDecimal | core/intobj.c:693-712 | "-1_2_3" in base 10 reads -123 and ends after all 6 characters |
| IntObj.ParseExampleHex | core/intobj.c:699-712 | "ff_ff" in base 16 reads 0xffff |
| IntObj.ParseExampleSignOnly | core/intobj.c:708-711 | a lone "-" reads nothing and the end is just past the sign |
| IntObj.DigitsTextIsNumeral | core/intobj.c:866-876 | for a positive number the digits the division loop writes are its numeral in the base |
| IntObj.ZeroText | core/intobj.c:850-856 | the text of 0 is "0" |
| IntObj.WriteDigits | core/intobj.c:866-876 | -1 exactly when the buffer is shorter than the digits of num, otherwise those digits (its numeral, by `DigitsTextIsNumeral`) end the buffer |
| IntObj.FinishText | core/intobj.c:877-885 | the sign is prepended and the text moved to the front: -1 exactly when it does not fit, otherwise its length with the text at the start |
| IntObj.SmallintToStr | core/intobj.c:841-886 | -1 exactly when the buffer is shorter than the text, otherwise the length of the sign and numeral of i in the magnitude of base, uppercase for a negative base, written at the start |
| IntObj.EmitCellDigit | core/intobj.c:823-825 | dividing the cells by the base leaves a smaller value and writes its lowest digit in front of the digits already written |
| IntObj.TrimReset | core/intobj.c:826-827 | the reset count drops past the leading zero cells: the value stays below its weight and the last cell counted is non-zero |
| IntObj.WriteCellDigits | core/intobj.c:817-828 | the division loop over the copied cells writes the numeral of their value at the end of the buffer, or -1 exactly when it does not fit |
| IntObj.ValueS | core/intobj.c:798-839 | -1 exactly when the buffer is shorter than the text, otherwise the length of the signed numeral of the object, written at the start |
| IntObj.BigBeyondSmall | core/intobj.c:1469-1475 | a canonical object lies below every small int when negative and above every one otherwise |
| IntObj.CompareAsWritten | core/intobj.c:1459-1481 | the sign of lhs - rhs whenever one side is a small int; for two objects the sign of the difference of the magnitudes only |
| IntObj.Compare | core/intobj.c:1459-1481 | corrected: always the sign of lhs - rhs |
| IntObj.NormalUnique | core/intobj.c:1490-1492 | normalised magnitudes have equal cells exactly when their values are equal |
| IntObj.EqualsAsWritten | core/intobj.c:1483-1493 | equality of the values when one side is a small int; for two objects equality of the magnitudes only |
| IntObj.Equals | core/intobj.c:1483-1493 | corrected: true exactly when the two integers are equal |
| IntObj.SignIgnoredExample | core/intobj.c:1478 | -2^64 and 2^64 are canonical objects on both word sizes with equal magnitudes but different values |
| IntObj.SingleBit | core/intobj.c:572 | a cell has popcount 1 exactly when it is a power of two |
| IntObj.PowerOfTwoCells | core/intobj.c:568-579 | a normalised magnitude is a power of two exactly when the top cell has a single bit and every cell below is zero |
| IntObj.IsPow2AsWritten | core/intobj.c:568-579 | as written, true exactly when there is one cell and it has a single bit: with two or more cells the loop counts up into the top cell |
| IntObj.IsPow2 | core/intobj.c:568-579 | corrected (loop counting down): true exactly when the magnitude is a power of two |
| IntObj.IsPow2AsWrittenMissesExample | core/intobj.c:574 | 2^32, two cells, is a power of two that the as-written test rejects |
| TypeObj.CachedSize | core/typeobj.c:102-105 | the cached object size is 0 exactly when the slots or the bytes are extendable (`(size_t)-1`); otherwise head, slots and bytes |
| TypeObj.MethodCode | core/typeobj.c:165-170 | method i is stored in the name map as `-1 - i`, a negative value |
| TypeObj.FieldOfCode | core/typeobj.c:205-208 | a name-map value is a field index exactly when it is not negative, and field i's value decodes to i |
| TypeObj.MethodOfCode | core/typeobj.c:219-222 | a name-map value is a method index exactly when it is negative, and method i's value `-1 - i` decodes to i |
| TypeObj.CodesPartition | core/typeobj.c:197-223 | every name-map value names a field or a method, never both, and decoding inverts the encoding |
| TypeObj.FindField | core/typeobj.c:197-209 | found exactly when the name is present with a non-negative value, and then that value is the index |
| TypeObj.FindMethod | core/typeobj.c:211-223 | found exactly when the name is present with a negative value, and then that value is `-1 - index` |
| TypeObj.GetMethod | core/typeobj.c:232-246 | a method exactly when `find_method` finds one, and then the table entry at that index |
| TypeObj.TerminatedLength | core/typeobj.c:82-96 | 0 for a NULL array; otherwise the index of the first terminator, every entry before it present (also the `_named_*_arr_len` counts of core/moduleobj.c:46-68) |
| TypeObj.ArrLen | core/typeobj.c:82-96 | the walk to the terminator returns the terminated length (the same walk as core/moduleobj.c:46-68) |
| TypeObj.Type.constructor | core/typeobj.c:59-80 | a new type has no slots, no bytes, no cached size, an empty method table and empty maps |
| TypeObj.Type.Bootstrap | core/typeobj.c:22-57 | a bootstrapped type takes the definition's layout and cached size, then empty tables |
| TypeObj.Type.MethodCount | core/typeobj.h:61-65 | on a type whose method names index its table, every index `find_method` gives is below the count (so it may be passed to `get_method_i`) |
| TypeObj.Type.MethodAt | core/typeobj.h:67-73 | at the index `find_method` gives for a name, the slot is the method `get_method` returns for that name |
| TypeObj.Type.ObjectSizeIsLayout | core/typeobj.h:99-141 | on a valid type, the object size (cached or computed, reading slot 0 and the BYTES size word for extendable parts) is head + slot count · pointer size + bytes size |
| TypeObj.Type.FindFieldOf | core/typeobj.c:197-209 | `find_field` on the type's own name map |
| TypeObj.Type.FindMethodOf | core/typeobj.c:211-223 | `find_method` on the type's own name map |
| TypeObj.Type.GetMethodOf | core/typeobj.c:232-246 | `get_method` on the type: found exactly when `find_method` finds, and then that table entry |
| TypeObj.Type.SetMethodAt | core/typeobj.c:225-230 | replaces one table entry; every other entry, the name map, the statics and the layout are unchanged |
| TypeObj.Type.GetStatic | core/typeobj.c:248-253 | the static of that name, absent (NULL) when there is none |
| TypeObj.Type.SetStatic | core/typeobj.c:255-260 | afterwards the name reads back the new value, every other name reads as before, nothing else changes |
| TypeObj.Type.LoadNativeDef | core/typeobj.c:98-195 | the layout and cached size from the definition; the name map is the field loop then the method loop over the old map; the method table (as many slots as the definition has methods) and the statics are what those loops build; the type stays valid |
| TypeObj.LoadFields | core/typeobj.c:127-142 | each named field among the first `slots_num` maps to its index, later names overriding earlier ones |
| TypeObj.LoadMethods | core/typeobj.c:144-176 | a fresh table of `method_count` entries holding each method whose meta converts, each loaded named method mapped to `-1 - i`; a failing meta is skipped |
| TypeObj.LoadStatics | core/typeobj.c:178-192 | each static whose value can be made is set under its name; the others are skipped |
| TypeObj.FieldNamesNoMethods | core/typeobj.c:135-140 | the field loop adds only non-negative values |
| TypeObj.MethodNamesIndexed | core/typeobj.c:165-170 | after the method loop every negative value indexes the new table |
| TypeObj.FieldNamesLast | core/typeobj.c:132-141 | a field name maps to the index of its last occurrence |
| TypeObj.FieldNamesOther | core/typeobj.c:132-141 | a name that no field carries keeps its previous entry or absence |
| TypeObj.MethodNamesLast | core/typeobj.c:151-175 | a method name maps to `-1 - i` for the last loaded method of that name |
| TypeObj.MethodNamesOther | core/typeobj.c:151-175 | a name that no loaded method carries keeps its previous entry or absence |
| TypeObj.MethodTableSlot | core/typeobj.c:151-165 | table entry i is the converted native function when its meta converts, and the initial filler otherwise |
| TypeObj.MethodTableBeyond | core/typeobj.c:151-165 | the loop over the first k methods leaves the entries from k on untouched |
| TypeObj.FindFieldAfterLoad | core/typeobj.c:127-176 | after loading, a field name not reused later is found at its slot index and is not a method |
| TypeObj.GetMethodAfterLoad | core/typeobj.c:144-176 | after loading, the last loaded method of a name is found at its index, is not a field, and its entry is the converted native function |
| TypeObj.SkippedMethodSlot | core/typeobj.c:156-163 | a method whose meta fails to convert leaves its table entry empty |
| MapObj.EmptyBuckets | core/mapobj.c:66-71 | a new bucket array has the requested number of buckets, every one empty |
| MapObj.FindIn | core/mapobj.c:102-121 | the node found is the first of its bucket with the key and hash; no node matches when none is found |
| MapObj.FindNode | core/mapobj.c:110-120 | the walk along a bucket returns the first node whose hash and key both match, or none |
| MapObj.DelNode | core/mapobj.c:170-204 | corrected: deletion reports found exactly when the key's bucket holds it, and then unlinks that first matching node from the bucket `h % count`; otherwise the buckets are unchanged |
| MapObj.DelNodeAsWrittenSmallHash | core/mapobj.c:189-191 | while the hash is below the bucket count the head deletion as written equals the intended deletion |
| MapObj.DelHeadAsWrittenOutOfBounds | core/mapobj.c:191 | with two buckets and a head node of hash 3 the as-written store falls outside the array, where the intended deletion empties bucket 1 |
| MapObj.LookupPut | core/mapobj.c:146-161 | after putting a node at the head of its bucket, its key finds the new value and every other key finds what it found before |
| MapObj.PlacedPut | core/mapobj.c:150-160 | putting a node into bucket `hash % count` keeps every node in the bucket its hash selects |
| MapObj.PutAllPlaced | core/mapobj.c:265-267 | moving any list of correctly hashed nodes into fresh buckets leaves every node in the bucket its hash selects |
| MapObj.PutAllLookup | core/mapobj.c:265-267 | after moving a list of nodes into buckets, a key finds the last moved node with that key, or what the buckets held before |
| MapObj.FlatOnlyBucket | core/mapobj.c:80-90 | in well-placed buckets every node with a given hash lies in the bucket of that hash, so the visiting order's matches are that bucket's matches |
| MapObj.RehashLookup | core/mapobj.c:247-277 | rehashing into any positive number of buckets keeps what every key finds |
| MapObj.RehashKeeps | core/mapobj.c:247-277 | rehashing keeps the bucket invariant (placement, correct hashes, at most one node per key) and the node count |
| MapObj.InsertKeeps | core/mapobj.c:366-370 | inserting a node for an absent key keeps the invariant, adds one node, and changes only that key's lookup |
| MapObj.UpdateKeeps | core/mapobj.c:354-356 | replacing the value of a present key keeps the invariant and the node count and changes only that key's lookup |
| MapObj.RemoveKeeps | core/mapobj.c:396-402 | removing a present key keeps the invariant, removes one node, makes the key absent and changes no other lookup |
| MapObj.NodeFound | core/mapobj.c:464-470 | any node of well-formed buckets is what its own key finds |
| MapObj.MinBuckets | core/mapobj.c:215-218 | the bucket count is the least m with m · load factor ≥ n (the ceiling of n / load factor) |
| MapObj.ReserveCovers | core/mapobj.c:279-288 | the threshold of the minimal bucket count for n nodes is at least n, and that count is positive for positive n |
| MapObj.GrowTarget | core/mapobj.c:363 | the node count `set` reserves when it grows is at least 6 and above the current count |
| MapObj.MoveNodes | core/mapobj.c:263-267 | the rehash loop yields the buckets obtained by putting every node, in visiting order, into n empty buckets |
| MapObj.Map.constructor | core/mapobj.c:220-245 | a new map is empty and valid; a non-positive load factor becomes 0.9; a reservation gives ⌈reserve / load factor⌉ empty buckets and a threshold equal to it |
| MapObj.Map.Rehash | core/mapobj.c:247-277 | the new buckets are the old nodes moved in visiting order; the threshold is ⌊n · load factor⌋; count and lookups are unchanged |
| MapObj.Map.Reserve | core/mapobj.c:279-288 | the map is rehashed to the minimal bucket count exactly when it has fewer buckets; lookups are unchanged either way |
| MapObj.Map.Clear | core/mapobj.c:290-293 | every key becomes absent and the count zero, while the bucket count and threshold stay |
| MapObj.Map.Get | core/mapobj.c:295-327 | the value for a held key, `ZIS_THR` when hashing throws, `ZIS_E_ARG` when the key is absent |
| MapObj.Map.SymGet | core/mapobj.c:408-417 | the value of a symbol key, or nothing when absent |
| MapObj.Map.PutNew | core/mapobj.c:366-370 | a new head node for an absent key: the key finds the value, the count grows by one, other keys are unchanged |
| MapObj.Map.Insert | core/mapobj.c:357-371 | inserting an absent key grows the map to the minimal bucket count for twice the count (6 for up to 4 nodes) exactly when the count reached the threshold and the bucket is occupied or the map empty |
| MapObj.Map.Set | core/mapobj.c:329-375 | `ZIS_THR` with nothing changed when hashing throws; otherwise the key finds the new value, other keys are unchanged and the count grows only for a new key |
| MapObj.Map.SymSet | core/mapobj.c:419-433 | a symbol key finds the new value afterwards; other keys are unchanged and the count grows only for a new key |
| MapObj.Map.Unset | core/mapobj.c:377-406 | `ZIS_THR` when hashing throws, `ZIS_E_ARG` with nothing changed when absent, otherwise the key is removed, the count drops by one and other keys are unchanged |
| MapObj.Map.ReverseLookup | core/mapobj.c:458-482 | the key of the first node in visiting order holding the value (and that key finds it), or nothing exactly when no key holds it |
| SymbolObj.AreaSize | core/symbolobj.c:31-37 | the data area of a symbol of n bytes is the least multiple of the pointer size not below n |
| SymbolObj.NewArea | core/symbolobj.c:42-49 | a new symbol's data area starts with its bytes and is zero after them |
| SymbolObj.DataSize | core/symbolobj.c:55-68 | the data size never exceeds the area |
| SymbolObj.NewDataSize | core/symbolobj.c:42-50 | the data size of a new symbol reads back as its length exactly when no zero byte lies in its last word, and is never longer |
| SymbolObj.Symbol.constructor | core/symbolobj.c:27-53 | a new symbol holds the hash of its bytes and its data read back as those bytes |
| SymbolObj.EmptySymbolHashAsWritten | core/symbolobj.c:43-47 | as written the empty symbol's hash field is zeroed, while the empty bytes hash to 0x3380862c, so a lookup of the empty bytes never matches it |
| SymbolObj.MemCmpOrder | core/symbolobj.c:105-113 | the byte comparison is 0 exactly for equal prefixes, and otherwise has the sign of the bytewise order |
| SymbolObj.CmpDataOrder | core/symbolobj.c:101-113 | comparing two symbols' data gives 0 exactly for equal data or a prefix followed by a zero byte, and otherwise the sign of the bytewise order with a proper prefix first |
| SymbolObj.FitSmall | core/symbolobj.c:114-117 | the result is brought into small-int range without changing its sign |
| SymbolObj.Compare | core/symbolobj.c:84-121 | `<=>` gives 0 for the same object, throws for a non-symbol, and otherwise a small int ordered as the symbols' bytes |
| SymbolObj.SameSymbolMatches | core/symbolobj.c:255-259 | for a registered symbol the hash, size and byte comparison holds exactly when its bytes and hash are the ones looked up |
| SymbolObj.FindSymbol | core/symbolobj.c:254-263 | the bucket walk stops at the first symbol with these bytes, or finds none |
| SymbolObj.RehashConsistent | core/symbolobj.c:208-217 | moving the symbols into new buckets keeps every node a symbol whose data and hash are the node's |
| SymbolObj.OneNodePerData | core/symbolobj.h:11 | in a valid registry two nodes with the same bytes are the same node |
| SymbolObj.Registry.constructor | core/symbolobj.c:321-329 | a new registry is empty and valid, with ⌈500 / 0.9⌉ buckets and threshold 500 |
| SymbolObj.Registry.Resize | core/symbolobj.c:200-225 | every symbol is moved, in visiting order, into ⌈max / 0.9⌉ new buckets; the threshold becomes max; every lookup and the count are unchanged |
| SymbolObj.Registry.PutNew | core/symbolobj.c:238-241 | the symbol becomes the head of its bucket and is found for its bytes; the count rises by one and no other lookup changes |
| SymbolObj.Registry.Add | core/symbolobj.c:227-247 | adding a symbol resizes for twice the threshold exactly when the count has reached it and the bucket is occupied, then registers the symbol |
| SymbolObj.Registry.Find | core/symbolobj.c:249-264 | the registered symbol with exactly these bytes, or none |
| SymbolObj.Registry.Get | core/symbolobj.c:337-349 | corrected: interning: an existing symbol is returned with nothing changed, otherwise a fresh one is registered and counted; afterwards the bytes find the returned symbol |
| SymbolObj.Registry.Get2 | core/symbolobj.c:351-373 | the symbol for two byte strings is the interned symbol of their concatenation |
| StringObj.MinCharType | core/stringobj.c:47-53 | the char type of a character is the narrowest of C1, C2, C4 that holds it |
| StringObj.PackRoundTrip | core/stringobj.c:56-91 | the packed word `len << 2` with `ct` in the low bits gives back the length and the char type, never has low bits 2, and fits a `size_t` exactly when the length's top two bits are clear |
| StringObj.Equals | core/stringobj.c:518-531 | for valid strings, same char type, same length and equal data bytes hold exactly when the strings are equal |
| StringObj.DecodeEncode | core/stringobj.c:133-147 | the UTF-8 encoding of code points up to 0x1FFFFF decodes back to them |
| StringObj.Scan | core/stringobj.c:130-147 | the counting loop succeeds exactly when the whole input decodes, and then yields the code points and their maximum |
| StringObj.MaxTypeValid | core/stringobj.c:162-174 | every decoded code point fits the char type chosen from their maximum |
| StringObj.New | core/stringobj.c:120-178 | corrected: no bytes give the shared empty string; NULL exactly when decoding fails; otherwise the decoded code points, in the narrowest type that holds their maximum, as a valid string |
| StringObj.StoredAsWritten | core/stringobj.c:162-167 | the stored characters, with the byte copy taken when the maximum is below 0x80, are as many as the decoded ones |
| StringObj.OverlongStoredAsWritten | core/stringobj.c:164-165 | the overlong bytes C0 80 decode to one U+0000, but the copied byte 0xC0 is stored, which is not a valid C1 character |
| StringObj.StoredAsWrittenOnEncoded | core/stringobj.c:164-165 | on well-formed UTF-8 the byte copy stores exactly the decoded characters |
| StringObj.FromChar | core/stringobj.c:263-281 | a valid one-character string whose type is the narrowest that holds the character |
| StringObj.EncodeAscii | core/stringobj.c:328-336 | ASCII text is its own UTF-8 encoding, so copying a C1 string's data yields its UTF-8 text |
| StringObj.U8Size | core/stringobj.c:287-347 | with no buffer the result is the length of the string's UTF-8 encoding |
| StringObj.EncodeWide | core/stringobj.c:293-315 | the C2/C4 loop returns -1 exactly when the encoding is longer than the buffer; otherwise it writes the encoding in front, returns its length and leaves the rest of the buffer alone; on failure a prefix of the encoding has been written |
| StringObj.ToU8Str | core/stringobj.c:287-347 | -1 exactly when the UTF-8 text does not fit; otherwise the text in front of the buffer and its length; a C1 string that does not fit leaves the buffer unchanged |
| StringObj.AsAscii | core/stringobj.c:349-357 | data and length exactly for a C1 string, and then the data is ASCII and equals the string's UTF-8 text |
| StringObj.JoinMeasure | core/stringobj.c:415-448 | the first loop fails exactly on a negative integer or a non-string item, and otherwise finds the widest char type and the total length |
| StringObj.JoinCopy | core/stringobj.c:461-491 | the copy loop yields the items' characters with the separator between neighbours |
| StringObj.JoinedLength | core/stringobj.c:416-446 | the joined length is the sum of the item lengths plus the separator length for each of the k - 1 gaps |
| StringObj.JoinedFits | core/stringobj.c:444-445 | every joined character fits the widest of the separator's and the items' char types |
| StringObj.Join | core/stringobj.c:408-496 | zero items give the empty string; a panic exactly on a bad item; otherwise the joined characters in the widest type, with the expected length, valid when the inputs are |
| StringObj.Concat2 | core/stringobj.c:505-516 | concatenating two strings gives their characters in order, in the wider of their types |
| StringObj.HashAsWritten | core/stringobj.c:689-701 | as written every C1 string is hashed as the empty input |
| StringObj.AsciiHashCollision | core/stringobj.c:698 | as written the different strings "a" and "b" get the same hash |
| StringObj.HashInputDistinguishes | core/stringobj.c:695-698 | hashing all data bytes, two valid strings of one type and length with the same hashed bytes are equal |
| ObjMem.NewChunkSize | core/objmem.c:60-65 | a 0 size gives the default chunk; a size below twice the minimum gives the minimum; otherwise the chunk is half the size, rounded down; the chunk is never below the minimum |
| ObjMem.OldChunkSize | core/objmem.c:67-72 | a 0 size gives the default chunk; a size below the minimum is raised to it; any other size is kept |
| ObjMem.OldLimitSize | core/objmem.c:73-78 | a 0 limit gives 1 GiB; a given limit is raised to one old chunk, so it is at least the chunk and the given limit |
| ObjMem.ConfigConv | core/objmem.c:58-88 | every chunk is at least its minimum; the big-space threshold and limit are never 0 and a given value is kept; the old-space limit is at least one old chunk unless the limit is defaulted and the chunk exceeds 1 GiB |
| ObjMem.DefaultOldLimitBelowChunk | core/objmem.c:73-74 | a 2 GiB old chunk with no limit given leaves a 1 GiB limit, below one chunk |
| ObjMem.ConfigConvCorrected | core/objmem.c:73-78 | with the defaulted limit also raised to one chunk, the limit is always at least the chunk, and the result differs from the conversion as written only there |
| ObjMem.ConfigConvFixedPoint | core/objmem.c:58-88 | converting the options that a corrected configuration stands for gives that configuration back |
| ObjMem.IndexOf | core/objmem.c:167-178 | the position of the first node holding the address, or none when no node holds it |
| ObjMem.SpanSet.Find | core/objmem.c:167-178 | walking the list from the head returns the first node holding the address, or none |
| ObjMem.AddedLookup | core/objmem.c:182-197 | after an add, the address maps to the new function, every other address keeps its function, addresses stay distinct, and the list grows by one node only when the address was absent |
| ObjMem.SpanSet.Add | core/objmem.c:182-197 | the node of the address is updated in place, or a new node is linked in front |
| ObjMem.RemovedLookup | core/objmem.c:201-210 | after a remove, the address maps to nothing, every other address keeps its function, addresses stay distinct, and the list loses a node only when the address was present |
| ObjMem.SpanSet.Remove | core/objmem.c:201-210 | returns true iff the address had a node, and unlinks that node alone, keeping the order of the others |
| ObjMem.Chunk.constructor | core/objmem.c:249-256 | a new chunk's storage starts after its three header words and the free pointer is at the start |
| ObjMem.Chunk.Alloc | core/objmem.c:266-273 | fails, changing nothing, iff the free pointer plus the size reaches the end; otherwise returns the old free pointer and bumps it by the size; the free pointer stays inside the chunk |
| ObjMem.Chunk.Forget | core/objmem.c:277-279 | the free pointer goes back to the start of the storage |
| ObjMem.Chunk.Allocated | core/objmem.c:282-288 | the allocated range runs from the start of the storage to the free pointer, which is before the end |
| ObjMem.PackNextRoundTrip | core/objmem.c:460-467 | unpacking a packed 8-aligned next pointer and young flag gives both back, and the packed word is a word with its two mark bits clear |
| ObjMem.BigSpace.constructor | core/objmem.c:525-529 | a new big space has nothing allocated, the initial threshold and an empty list |
| ObjMem.BigSpace.Alloc | core/objmem.c:562-577 | fails, changing nothing, iff the allocated size plus the size exceeds the threshold; otherwise the allocated size grows by the size and the object is linked in as the new first object, pointing to the old first, with no young flag; the list stays well linked |
| ObjMem.BigSpace.Remember | core/objmem.c:580-592 | the object ends up flagged young; its word is rewritten only when the flag was clear, and its link and every other object are kept |
| ObjMem.BigSpace.Foreach | core/objmem.c:470-486 | following the links from the head and unpacking each word lists exactly the objects in list order, each with its young flag |
| ObjMem.RememberedSet.constructor | core/objmem.c:742-753 | a new set has one empty bucket per 1024 pointer-sized words of the chunk |
| ObjMem.RememberedSet.Record | core/objmem.c:766-782 | afterwards exactly the offsets recorded before and the new offset are recorded; the bucket is created empty on first use |
| ObjMem.ScanBucket | core/objmem.c:793-799 | one bucket yields, in increasing order, the offsets of exactly its set bits, scaled by the pointer size |
| ObjMem.RememberedSet.Foreach | core/objmem.c:784-802 | yields exactly the recorded offsets, in increasing order |
| ObjMem.RoundedBytes | core/objmem.c:1679 | the rounded byte size is a multiple of the pointer size and, without wrap-around, the least one at or above the request |
| ObjMem.AllocSizeIsObjectSize | core/objmem.c:1665-1738 | once slot 0 and the bytes-size word are filled in, the object reports the size that was allocated, the requested slot count and the rounded byte size |
| ObjMem.SpaceFor | core/objmem.c:1686-1722 | big space iff HUGE or the size exceeds the non-big limit; old space iff SURV within the limit; new space iff AUTO or an unknown type within the limit |
| ObjMem.SelectGc | core/objmem.c:1959-2007 | FULL iff one is forced or requested; FAST iff not forced and AUTO or FAST is requested; NONE iff not forced and the type is illegal |
| ObjMem.GcControl.Gc | core/objmem.c:1959-2007 | returns the selected GC type, consumes the forced-full flag, and leaves no GC current |
| ModuleObj.Reserved | core/moduleobj.c:107-113 | the new variable storage has the reserved count of slots, keeps the old slots that fit and fills the rest with the cleared word |
| ModuleObj.ReservedSpec | core/moduleobj.c:107-113 | reserving room for at least every name keeps the table valid and the variables unchanged |
| ModuleObj.SetEntrySpec | core/moduleobj.c:246-286 | setting a variable rebinds that name and keeps every other variable; a known name keeps its index and the storage; a new name gets index = name count, and the storage grows by 4 exactly when full; the slot at the returned index holds the value |
| ModuleObj.Module.constructor | core/moduleobj.c:19-44 | a new module has no variables, and the prelude as its parent when asked for |
| ModuleObj.Module.Find | core/moduleobj.c:233-244 | -1 exactly for an unknown name; otherwise a slot index holding the name's value |
| ModuleObj.Module.Get | core/moduleobj.c:288-299 | nothing exactly for an unknown name; otherwise the name's value |
| ModuleObj.Module.Set | core/moduleobj.c:246-286 | the new name map, storage and returned index are those of `SetEntry` on the old table; the table stays valid and the parents are unchanged |
| ModuleObj.Module.AddParent | core/moduleobj.c:165-191 | no parent becomes the module; one parent becomes a two-element array; an array gets the module appended; the new parent is visited last; the variables are unchanged |
| ModuleObj.Module.ForeachParent | core/moduleobj.c:193-231 | the parents are visited in order, a prefix of the parent list; every visited one but the last gives 0, the last gives the returned status; a 0 status means every parent was visited |
| ModuleObj.FirstBindingFound | core/moduleobj.c:300-325 | when the k-th parent is the first that binds the name, the parent lookup yields its value there |
| ModuleObj.FirstBindingNone | core/moduleobj.c:300-325 | when no parent binds the name, the parent lookup yields nothing |
| ModuleObj.Module.ParentGet | core/moduleobj.c:300-325 | the variable of the first parent that binds the name, or nothing |
| ModuleObj.Initializer | core/moduleobj.c:96-105 | there is an initializer exactly when the first function entry has no name; it takes no argument and has nl + 1 registers (in 16 bits) |
| ModuleObj.VariablesUpdatedKeys | core/moduleobj.c:149-158 | after the variable loop a name is bound exactly when it was before or some entry whose value could be made names it |
| ModuleObj.VariablesUpdatedLast | core/moduleobj.c:149-158 | an entry whose value could be made and that no later entry renames decides what its name holds |
| ModuleObj.VariablesUpdatedOthers | core/moduleobj.c:149-158 | a name no entry mentions keeps what it had |
| ModuleObj.FunctionsLoadedVars | core/moduleobj.c:116-137 | the function loop on the table binds each named function whose meta converts, in order, and nothing else |
| ModuleObj.TypesLoadedVars | core/moduleobj.c:138-148 | the type loop on the table binds every type under its name, in order |
| ModuleObj.VariablesLoadedVars | core/moduleobj.c:149-158 | the variable loop on the table binds each variable whose value could be made, in order |
| ModuleObj.LoadedVars | core/moduleobj.c:115-158 | the three loops on the table bind what the functions, then the types, then the variables define |
| ModuleObj.Module.BindFunction | core/moduleobj.c:119-135 | one function entry is bound when its meta converts and skipped otherwise |
| ModuleObj.Module.LoadFunctions | core/moduleobj.c:116-137 | the function loop, from entry 1 when entry 0 is the initializer, leaves the table the function loop describes |
| ModuleObj.Module.BindType | core/moduleobj.c:140-146 | one type entry is bound under its name |
| ModuleObj.Module.LoadTypes | core/moduleobj.c:138-148 | the type loop leaves the table the type loop describes |
| ModuleObj.Module.BindVariable | core/moduleobj.c:151-156 | one variable entry is bound when its value can be made and skipped otherwise |
| ModuleObj.Module.LoadVariables | core/moduleobj.c:149-158 | the variable loop, over the variable count, leaves the table the variable loop describes |
| ModuleObj.Module.LoadDefinitions | core/moduleobj.c:115-158 | functions, then types, then variables are loaded into the table |
| ModuleObj.Module.LoadNativeDef | core/moduleobj.c:70-162 | storage for every old name and every entry is reserved, the variables become the old ones updated by the three loops, the parents are unchanged, and the initializer is returned |
| ModuleObj.LoadDefinesVariables | core/moduleobj.c:149-158 | after loading, every variable entry whose value can be made is bound, to that value when no later variable entry has its name |
| ModuleObj.VariablesUpdatedAsWritten | core/moduleobj.c:149-158 | the variable loop as written runs over the type count: it reads past the terminator exactly when there are variables and more types than variables |
| ModuleObj.VariableLoopSkipsVariables | core/moduleobj.c:151 | a module with one variable and no type gets no variable from the loop as written, but the variable from the loop over the variable count |
| StreamObj.SeekTargetInside | core/streamobj.c:82-105 | a seek with a known whence lands inside the data, exactly at base + offset when that is inside |
| StreamObj.SeekStable | core/streamobj.c:82-105 | seeking from the start to where a seek landed, by 0 from there, or to the same place from the end, stays there |
| StreamObj.StrState.constructor | core/streamobj.c:64-80 | a string backend starts at the beginning of its data |
| StreamObj.StrState.Seek | core/streamobj.c:82-105 | the new position is `SeekTarget` and is returned; an unknown whence returns 0 and keeps the position |
| StreamObj.Taken | core/streamobj.c:107-115 | a read delivers at most `size` bytes, and fewer only when the data ends |
| StreamObj.TakenConcat | core/streamobj.c:107-115 | two successive reads deliver what one read of the combined size delivers |
| StreamObj.StrState.Read | core/streamobj.c:107-115 | the bytes `Taken` are copied to the front of the buffer, the rest of the buffer is unchanged, and the position advances by their count, which is returned |
| StreamObj.ReadBytesResult | core/streamobj.c:259-283 | the result is -1 exactly when nothing was buffered and the backend failed; otherwise the buffered count plus what the backend delivered, or `size` when the buffer sufficed |
| StreamObj.Stream.constructor | core/streamobj.c:150-176 | an input stream starts with an empty buffer, an output stream with a buffer that is all room; in UTF-8 text mode the character pointers start at the byte pointers |
| StreamObj.Stream.ReadBytes | core/streamobj.c:259-283 | the output holds the buffered bytes, then the backend's bytes, and is unchanged after them; the buffer is drained only as far as needed; the result is `ReadBytesResult` |
| StreamObj.PeekIn | core/streamobj.c:358-375 | the CR of a CR LF pair is skipped in CRLF mode; -1 exactly when no character decodes, otherwise the character's length is that of its lead byte |
| StreamObj.PeekFastPathAgrees | core/streamobj.h:130-143 | on a byte below 0x80 that is not CR, the inline fast path and the slow path give the same character |
| StreamObj.PeekEncoded | core/streamobj.c:358-375 | peeking at the UTF-8 encoding of a character gives that character and its encoded length |
| StreamObj.Stream.PeekSlow | core/streamobj.c:332-376 | with fewer than five bytes left, the rest moves to the front and the backend's bytes follow it; a failed read changes nothing and gives -1; the character is `PeekIn` of what follows the position |
| StreamObj.Stream.CharBufPtr | core/streamobj.c:460-486 | an exhausted input stream is refilled (the end of the stream when no character decodes), an exhausted output stream flushed; a move past the bytes left panics, otherwise the position advances by it and the bytes left after it are reported |
| StreamObj.ReadLine | core/streamobj.c:413-438 | corrected: the buffer holds the UTF-8 encoding of the characters read and is unchanged after them; reading stops after '\n', at the end of the stream, or once `size - 3` bytes are written, and no '\n' comes before the last character read |
| StreamObj.ReadLineAsWritten | core/streamobj.c:413-438 | the loop as written leaves the count, the characters read and the buffer that `LineAsWritten` gives |
| StreamObj.LineAsWrittenOverwritesFront | core/streamobj.c:433 | "a", 'é', '\n' read as written leave C3 A9 00 0A, not the encoding 61 C3 A9 0A |
| StreamObj.LineAsWrittenTruncatesWide | core/streamobj.c:422-424 | U+0100 read as written is stored as the byte 00, not as C4 80 |
| AsmNames.OpNamesSorted | src/core/oplist.h:80-210 | the defined mnemonics of the name-sorted op list are strictly increasing in byte order, as the binary search needs |
| AsmNames.OpNamesDistinct | src/core/oplist.h:80-210 | no two defined mnemonics are equal |
| AsmNames.FindOp | core/assembly.c:48-58 | the first defined mnemonic at or after `i` equal to the name, with -1 exactly when there is none |
| AsmNames.OpcodeOfName | core/assembly.c:48-58 | looking up any defined mnemonic gives the opcode listed beside it |
| AsmNames.OpcodeFromName | core/assembly.c:78-98 | the binary search (ending when the upper index steps below the lower one, read as signed) returns the opcode of the listed name and -1 for any other string |
| AsmNames.PseudoFromName | core/assembly.c:100-109 | the index of the name among END, FUNC, TYPE, CONST and SYM, and -1 exactly when it is none of them |
| AsmNames.OppositeInvolution | core/assembly.c:364-379 | the opposite of a conditional jump is another conditional jump, and the opposite of the opposite is the jump itself (JMPT/JMPF, JMPLE/JMPGT, JMPLT/JMPGE, JMPEQ/JMPNE) |
| Assembly.Int32 | core/assembly.c:417-418 | the signed reading of a uint32 lies in the int32 range and agrees with it modulo 2^32 |
| Assembly.JumpOffsetExact | core/assembly.c:417-418 | the 32-bit offset is the label's address minus the jump's address whenever that difference fits in 32 bits |
| Assembly.Grow | core/assembly.c:146-151 | a full buffer or table grows to its initial capacity and then doubles, always to a larger capacity of that form |
| Assembly.InstrBuffer.constructor | core/assembly.c:131-135 | a new buffer is empty with no storage |
| Assembly.InstrBuffer.Append | core/assembly.c:145-154 | the word is added at the end, and the capacity grows (32, then doubling) exactly when the buffer was full |
| Assembly.InstrBuffer.Insert | core/assembly.c:156-165 | the word lands at `pos` with the words before it unchanged and the tail moved up by one |
| Assembly.InstrBuffer.Clear | core/assembly.c:141-143 | the buffer is emptied and keeps its storage |
| Assembly.LabelTable.Alloc | core/assembly.c:182-193 | label ids are handed out consecutively from 0, each new label not yet placed (all ones) |
| Assembly.LabelTable.Shift | core/assembly.c:217-224 | every label address at or above the start moves up by one (wrapping at 2^32); the others and the count are unchanged |
| Assembly.LabelTable.Clear | core/assembly.c:207-215 | the table is emptied and keeps its storage |
| Assembly.JumpTable.constructor | core/assembly.c:241-245 | a new jump table is empty with no storage |
| Assembly.JumpTable.Add | core/assembly.c:255-272 | the jump is appended unextended at the next index, and (with storage sized by the entry type) it lies inside the storage |
| Assembly.JumpTable.Shift | core/assembly.c:281-288 | every entry whose address is at or above the start moves up by one; nothing else of any entry changes |
| Assembly.JumpTable.Clear | core/assembly.c:251-253 | the table is emptied and keeps its storage |
| Assembly.LastEntryFits | core/assembly.c:259-261 | with the allocation as written (`capacity * sizeof(struct jumpinstr_table)`), a full table's entries fit in the storage exactly on a 64-bit target |
| Assembly.StorageBytes | core/assembly.c:259-261 | storage sized by the entry type holds every entry below the capacity |
| Assembly.UnextendedExtend | core/assembly.c:426-440 | extending one entry lowers the number of unextended entries by one, which bounds the restarts of the fill |
| Assembly.FilledKeepsPlacement | core/assembly.c:454-466 | after the copy loop every entry's instruction is at its address (its `JMP` right after once extended), every placeholder became a jump and every other word is unchanged |
| Assembly.CopiedCompiled | core/assembly.c:390-467 | copying the filled table into the filled buffer gives code in which every jump is resolved, no placeholder remains, the other words keep their order and the code ends with a return |
| Assembly.SymbolIdsDistinct | core/assembly.c:522-540 | different symbols have different ids, each below the number of symbols |
| Assembly.Assembler.constructor | core/assembly.c:311-335 | a new assembler has empty buffer, tables, constants and symbols and all-zero meta data |
| Assembly.Assembler.Clear | core/assembly.c:355-362 | every table, the constants and the symbols are emptied and the meta data zeroed |
| Assembly.Assembler.FuncMeta | core/assembly.c:502-509 | a given meta replaces the current one; the current one is returned either way |
| Assembly.Assembler.FuncConstant | core/assembly.c:511-520 | the constant is appended and its index returned: constant indices are consecutive |
| Assembly.Assembler.FuncSymbol | core/assembly.c:522-540 | a known symbol gets its existing id and the table is unchanged; a new symbol gets the next consecutive id |
| Assembly.Assembler.AllocLabel | core/assembly.c:542-546 | the new label id is the number of labels before the call |
| Assembly.Assembler.PlaceLabel | core/assembly.c:548-554 | the label's address becomes the current buffer length and the id is returned |
| Assembly.Assembler.Append | core/assembly.c:556-559 | the word is appended and every pending jump keeps its placeholder |
| Assembly.Assembler.AppendJump | core/assembly.c:625-656 | the jump is recorded with offset 0 at the current address and a placeholder naming its entry is appended |
| Assembly.Assembler.AppendRetNil | core/assembly.c:393-404 | `RETNIL` is appended unless the code ends with `RET`, `RETNIL` or `THR`; afterwards the code ends with a return |
| Assembly.Assembler.Extend | core/assembly.c:426-440 | an out-of-range conditional jump becomes its opposite skipping 2 words plus a `JMP`; the code grows by one placeholder, the non-jump words are kept, labels and entries above move up, and one fewer entry is unextended |
| Assembly.Assembler.FillPass | core/assembly.c:407-452 | one pass either resolves every entry without touching the code, or extends one entry (restart), or stops at an entry whose offset does not fit in 25 bits (the panic) |
| Assembly.Assembler.FillJumps | core/assembly.c:407-452 | the restarting fill terminates; on success every entry is resolved against its label, the code grew by one word per extension and the non-jump words are unchanged |
| Assembly.Assembler.CopyBack | core/assembly.c:454-466 | the buffer becomes the buffer with every entry's instruction (and `JMP`) copied over its placeholders |
| Assembly.Assembler.SymbolSlots | core/assembly.c:381-388 | the symbol table built from the id map lists each symbol at its id |
| Assembly.Assembler.Finish | core/assembly.c:390-500 | the function holds resolved, placeholder-free code ending with a return, the old meta data, the symbols by id and the constants, and the assembler is cleared; no function only when some jump is too far for 25 bits |
| Token.PrecedenceRange | core/token.h:18-59 | every operator's precedence is non-zero and at most 15 in magnitude |
| Token.RightToLeft | core/token.h:18-59 | a precedence is negative (right-to-left) exactly for the unary operators, `=` and the compound assignments |
| Token.KeywordFrom | core/token.h:78-94 | a keyword found from list position `k` on is spelled as asked and lies at or after `k` |
| Token.KeywordOf | core/token.h:164-170 | a keyword found for a text is spelled that way |
| Token.KeywordTextRoundTrip | core/token.h:164-170 | looking up a keyword's text gives that keyword back, so no two keywords share a text |
| Token.KeywordTextsDistinct | core/token.h:78-94 | no two entries of the keyword list are equal |
| Token.KeywordFromFinds | core/token.h:78-94 | a search starting at or before a keyword's position finds that keyword |
| Token.EqlOpSpelling | core/token.h:25-59 | each compound assignment is the binary operator 21 places before it in the list, spelled with `=` appended |
| Lexer.HexRunChars | core/lexer.c:389-401 | the run of hexadecimal digits holds only digits and stops at the end or at a non-digit |
| Lexer.HexRunAt | core/lexer.c:389-401 | a digit run that a non-digit or the end follows ends there |
| Lexer.HexRunPast | core/lexer.c:389-401 | a run of digits through `i` ends after `i` |
| Lexer.HexValueSnoc | core/lexer.c:397 | one more digit multiplies the running value by 16 and adds the digit |
| Lexer.HexValuePrefix | core/lexer.c:397-399 | dropping trailing digits never increases the value, so the running value stays below the final one |
| Lexer.SimpleEscape | core/lexer.c:345-374 | the single-character escapes stand for ASCII codes (below 0x80) |
| Lexer.BracedClose | core/lexer.c:391-394 | digits closed by `}` inside the window give their value and end just past the `}`, when within the bound |
| Lexer.BracedStop | core/lexer.c:395-396 | a character that is neither `}` nor a digit, or the end of the window, before the `}` gives no escape |
| Lexer.BracedTooLarge | core/lexer.c:398-399 | a running value above the bound gives no escape, whatever follows |
| Lexer.EscapeEnd | core/lexer.c:337-408 | a successful escape ends inside the window, or one past it only when the `}` sits right after the window |
| Lexer.TranslateEscape | core/lexer.c:337-408 | `_lit_str_esc_trans` returns the escape's code and its end, or -1 with the end left unchanged, as the escape definition says |
| Lexer.BracedHex | core/lexer.c:385-402 | the `u{...}` loop returns the braced escape's code and end, or -1 |
| Lexer.EscapeExamples | core/lexer.c:375-384 | `\x7e` is code 0x7e; a short window, a non-hex second digit or a value of 0x80 or more, and an unknown letter give no escape |
| Lexer.BracedExamples | core/lexer.c:385-402 | `\u{4f60}` is code 0x4f60 ending past the `}`; an unclosed `\u{123` gives none |
| Lexer.HexDigitsValue | core/lexer.c:388-397 | the value of the braced digits is built one digit at a time from 0 |
| Lexer.AsWrittenRejectsAstral | core/lexer.c:398 | as written, the bound 0x10fff rejects U+1F600, which the Unicode bound accepts |
| Lexer.AsWrittenAcceptsEmptyBraces | core/lexer.c:389-394 | as written, `\u{}` stands for code 0; with a digit required it is rejected |
| Lexer.CodePointRoundTrip | core/lexer.c:385-402 | with the Unicode bound and a digit required, every code point written in hexadecimal between braces reads back as itself |
| Lexer.TableStep | core/lexer.c:145-150 | adding the next keyword's text extends the keyword table by exactly that entry |
| Lexer.TableDone | core/lexer.c:151 | a table holding every keyword maps exactly the keyword texts to their keywords, one entry each |
| Lexer.KeywordTableNew | core/lexer.c:134-156 | the new table maps each keyword's text to its token type and has one entry per keyword |
| Lexer.KeywordLookup | core/lexer.c:158-170 | 0 exactly when the text is no keyword, otherwise that keyword's token type, which lies in 1..255 |
| Lexer.PrefixBase | core/lexer.c:206-215 | only the letters b, o and x (either case) after `0` select a base |
| Lexer.DigitsFrom | core/lexer.c:237-282 | the digits read from a position make an integer token that ends after at least one character |
| Lexer.DigitsStart | core/lexer.c:201-234 | where digit reading starts: inside the input; no start only after a `0` |
| Lexer.ScanNumber | core/lexer.c:191-335 | a scanned number is an integer literal token that ends after its first character |
| Lexer.PeekAfter | core/lexer.c:71-73 | the character after a text is the first of what follows, or the end |
| Lexer.DigitsParse | core/lexer.c:237-282 | digits that nothing continues parse as their value and are not followed by `.` |
| Lexer.ReadDigits | core/lexer.c:237-293 | when the located digits parse as a value and no `.` follows, the token is that integer |
| Lexer.PrefixedLiteralValue | core/lexer.c:201-293 | `0b`, `0o` or `0x` followed by digits of that base reads as the digits' value |
| Lexer.DecimalLiteralValue | core/lexer.c:201-293 | decimal digits not starting with `0` read as their value |
| Lexer.PrefixWithoutDigits | core/lexer.c:242-245 | `0x` with no digit after it is an unexpected end of a number literal |
| Lexer.LetterAfterZero | core/lexer.c:220-222 | a letter other than a prefix letter after `0` is an unexpected character |
| Lexer.DigitOutsideBase | core/lexer.c:254-257 | a digit outside the base after the prefix is no digit: an unexpected end of a number literal |
| Lexer.DigitsThenDot | core/lexer.c:283-294 | digits followed by `.` start a floating-point literal |
| Lexer.OneThenDot | core/lexer.c:283-294 | `1.5` starts a floating-point literal |
| Lexer.FloatingPointStart | core/lexer.c:216-218 | `0.5` and `1.5` start floating-point literals |
| Lexer.SignAfterPrefix | core/lexer.c:248-249 | the digits after a prefix go to the signed-integer parser, so `0x-5` is the integer -5 |
| Lexer.ScanOperator | core/lexer.c:671-770 | an operator takes one to three characters, is a listed operator or punctuation, and is never the double bar, `<<=` or `>>=` |
| Lexer.OperatorSpelled | core/lexer.c:671-770 | with the `..` case corrected, every operator token takes exactly its own spelling |
| Lexer.Slices | core/lexer.c:671-770 | the one-, two- and three-character windows at a position, element by element |
| Lexer.DollarSpelled | core/lexer.c:674-675 | `$` is scanned as the token spelled by the characters it takes |
| Lexer.CommaSpelled | core/lexer.c:689-690 | `,` is scanned as the token spelled by the characters it takes |
| Lexer.ColonSpelled | core/lexer.c:714-715 | `:` is scanned as the token spelled by the characters it takes |
| Lexer.QuestionSpelled | core/lexer.c:748-749 | `?` is scanned as the token spelled by the characters it takes |
| Lexer.TildeSpelled | core/lexer.c:769-770 | `~` is scanned as the token spelled by the characters it takes |
| Lexer.LParenSpelled | core/lexer.c:847-848 | `(` is scanned as the token spelled by the characters it takes |
| Lexer.RParenSpelled | core/lexer.c:850-851 | `)` is scanned as the token spelled by the characters it takes |
| Lexer.LBracketSpelled | core/lexer.c:853-854 | `[` is scanned as the token spelled by the characters it takes |
| Lexer.RBracketSpelled | core/lexer.c:856-857 | `]` is scanned as the token spelled by the characters it takes |
| Lexer.LBraceSpelled | core/lexer.c:859-860 | `{` is scanned as the token spelled by the characters it takes |
| Lexer.RBraceSpelled | core/lexer.c:862-863 | `}` is scanned as the token spelled by the characters it takes |
| Lexer.BangSpelled | core/lexer.c:671-672 | `!` and `!=` are scanned as the tokens spelled by the characters they take |
| Lexer.PercentSpelled | core/lexer.c:677-678 | `%` and `%=` are scanned as the tokens spelled by the characters they take |
| Lexer.PlusSpelled | core/lexer.c:686-687 | `+` and `+=` are scanned as the tokens spelled by the characters they take |
| Lexer.SlashSpelled | core/lexer.c:711-712 | `/` and `/=` are scanned as the tokens spelled by the characters they take |
| Lexer.EqualsSpelled | core/lexer.c:742-743 | `=` and `==` are scanned as the tokens spelled by the characters they take |
| Lexer.CaretSpelled | core/lexer.c:763-764 | `^` and `^=` are scanned as the tokens spelled by the characters they take |
| Lexer.BarSpelled | core/lexer.c:766-767 | the bar and bar-equals are scanned as the tokens spelled by the characters they take |
| Lexer.AmpSpelled | core/lexer.c:680-681 | `&`, `&=` and `&&` are scanned as the tokens spelled by the characters they take |
| Lexer.StarSpelled | core/lexer.c:683-684 | `*`, `*=` and `**` are scanned as the tokens spelled by the characters they take |
| Lexer.MinusSpelled | core/lexer.c:692-693 | `-`, `-=` and `->` are scanned as the tokens spelled by the characters they take |
| Lexer.GreaterSpelled | core/lexer.c:745-746 | `>`, `>=` and `>>` are scanned as the tokens spelled by the characters they take |
| Lexer.DotSpelled | core/lexer.c:695-709 | `.`, `..` (corrected) and `...` are scanned as the tokens spelled by the characters they take |
| Lexer.LessSpelled | core/lexer.c:717-740 | `<`, `<=`, `<=>`, `<<` and `<-` are scanned as the tokens spelled by the characters they take |
| Lexer.AsWrittenDotDotSwallows | core/lexer.c:702-705 | as written, `..` also consumes the character after it: `..x` takes three characters; corrected, two |
| Lexer.OperatorExamples | core/lexer.c:717-740 | the longest operator wins: `<=>`, `<=`, `<<` (not `<<=`), `...`, `->`, `**`, and the double bar is two single bars |
| Lexer.ScanWord | core/lexer.c:492-562 | the identifier characters make an identifier token holding their text, retyped as a keyword when they spell one |
| Lexer.IdentEndAt | core/lexer.c:510-528 | the identifier run ends at the first character that cannot continue it |
| Lexer.KeywordLetters | core/token.h:78-94 | keywords are spelled with at least two lower-case letters |
| Lexer.KeywordIdentChars | core/lexer.c:517-520 | a keyword's letters are identifier characters |
| Lexer.KeywordScanned | core/lexer.c:549-551 | a keyword's text that an identifier character does not continue is scanned as that keyword |
| Lexer.NextNewline | core/lexer.c:84-93 | the first line break at or after a position, or the end, with none before it |
| Lexer.CommentEnd | core/lexer.c:645-648 | scanning resumes after the comment's first character, at most at the end |
| Lexer.ScanToken | core/lexer.c:671-863 | one token from the character that starts it: never EOS or EOF, and it takes at least one character |
| Lexer.Scan | core/lexer.c:565-900 | `scan_next` moves forward; a token taking nothing is the end of the input with the end flag set |
| Lexer.BlankTail | core/lexer.c:869-879 | white space to the end gives EOS, and EOF once EOS has been given |
| Lexer.IgnoredEolOnlyEndsAtEnd | core/lexer.c:629-643 | while line breaks are ignored, EOS comes only from the end of the input |
| Lexer.CommentEndsStatement | core/lexer.c:645-648 | corrected, a comment runs to its line break, which then ends the statement |
| Lexer.AsWrittenCommentJoinsLines | core/lexer.c:645-648 | as written, the line break after a comment is consumed with it, so `#`, a line break and `(` gives `(`, not EOS |
| Lexer.Lexer.constructor | core/lexer.c:904-915 | the keyword table is built and there is no input yet |
| Lexer.Lexer.Start | core/lexer.c:917-928 | reading starts at the beginning of the input with line breaks significant and the end flag clear |
| Lexer.Lexer.IgnoreEolBegin | core/lexer.c:946-950 | one more region ignores line breaks; nothing else changes |
| Lexer.Lexer.IgnoreEolEnd | core/lexer.c:952-956 | the innermost region ends; nothing else changes |
| Lexer.Lexer.ReadWord | core/lexer.c:492-562 | reading an identifier with the keyword table gives the word scan's token |
| Lexer.Lexer.SkipComment | core/lexer.c:84-93 | the comment skip stops at the next line break or the end |
| Lexer.Lexer.ScanFrom | core/lexer.c:565-900 | the scanning loop returns the corrected `scan_next` result |
| Lexer.Lexer.Next | core/lexer.c:936-944 | the next token is the corrected scan from the read position; the position and end flag move past it, and nothing changes on an error |
| Repl.MemChr | modules/repl.c:55 | `memchr` from an offset: the first index holding the byte, with none before it, or none at all |
| Repl.MemStr | modules/repl.c:50-67 | the leftmost occurrence of the needle, or none when it does not occur, is empty or is longer than the haystack |
| Repl.OccursFirst | modules/repl.c:55-62 | an occurrence starts with the needle's first byte, so `memchr` never skips one |
| Repl.NoFirstByte | modules/repl.c:55-57 | when `memchr` finds no first byte, no occurrence remains |
| Repl.NoRoom | modules/repl.c:58-60 | when the rest from the candidate is shorter than the needle, no occurrence remains |
| Repl.SkipCandidate | modules/repl.c:61-64 | a failed comparison at the candidate rules out every start up to it |
| Repl.NeedNextLine | modules/repl.c:69-85 | true exactly when the thrown value is an exception whose message is a string that fits the 128-byte buffer and contains "before `end-of-source'" or "unexpected `end-of-source'" |
| Repl.MessageText | modules/repl.c:78-81 | the message converts exactly when its UTF-8 text fits the buffer, and then the bytes are that text |
| Repl.Search | modules/repl.c:82-84 | a non-empty needle is found exactly when it occurs |
| Clopts.Entries | start/clopts.c:56 | the option entries are the prefix before the zero-named terminator |
| Clopts.FindOption | start/clopts.c:54-61 | the first entry with the letter, none before it, or none at all |
| Clopts.ParseFrom | start/clopts.c:79-110 | the calls made from argument `i` on extend those already made |
| Clopts.Step | start/clopts.c:102-103 | a handler call is recorded after those made before |
| Clopts.Parse | start/clopts.c:63-111 | the status and the handler calls are those of the parsing loop from the first argument |
| Clopts.StatusCodes | start/clopts.c:8-10 | the status is 0, 1 or -1, and 0 only when every handler asked to continue |
| Clopts.StepCodes | start/clopts.c:74-76 | after a handler call the status is 0, 1 or -1: a break or an error from the handler ends parsing with that code |
| Clopts.RestArguments | start/clopts.c:81-107 | a word not starting with `-`, a lone `-`, or the word after `--` starts the rest arguments, whose handler is the last call |
| Clopts.UnknownOption | start/clopts.c:90-92 | an unknown option letter fails with -1 before any further handler runs |
| Clopts.OptionArgument | start/clopts.c:94-101 | an option's argument is the attached text, else the next word unless there is none or it is a known option, which fails |
| Clopts.TestOptionsAccepted | test/start_clopts.c:63-90 | `-h` breaks with 1; `-a 123 -b *` and `-a456 -b+` succeed with the expected handler calls |
| Clopts.TestNegativeArgument | test/start_clopts.c:92-100 | `-a -24` takes `-24` as the argument because `-2` is no known option |
| Clopts.TestRestArguments | test/start_clopts.c:102-133 | a plain word starts the rest arguments; a lone `-` is one of them; `--` is not |
| Clopts.TestErrors | test/start_clopts.c:135-164 | a rejected argument, a missing argument at the end or before a known option, and an unknown option each give -1 |
| Clopts.LoneDashReadsPastEnd | start/clopts.c:82 | as written, for a lone `-` the read of `s[2]` lies past the terminating NUL |
| Clopts.Head | start/clopts.c:82-88 | corrected: the third character is read only when the second is not the terminator, so every read stays inside the string |
| Clopts.LastSlash | start/cliutil.c:294 | `strrchr(s, '/')`: the last slash, with none after it, or none at all |
| Clopts.PathFilename | start/cliutil.c:281-297 | the program name has no slash and is the whole text or what follows its last slash |
| Clopts.PrintText | start/cliutil.c:152-160 | a line narrower than the indent plus 20 prints the text unwrapped, followed by a line break |
| Parser.Magnitude | core/parser.c:470-475 | the magnitude of an operator's precedence lies in 1..15 |
| Parser.Threshold | core/parser.c:471-475 | the comparison bound is the magnitude, one less for a right-to-left operator, and lies in 0..15 |
| Parser.Entry | core/parser.c:488 | the pushed entry `(type << 8) or magnitude` decodes back to the operator and its magnitude, and is an operator entry bounded by the threshold |
| Parser.LParenEntryParts | core/parser.c:496 | the `(` entry decodes to L_PAREN with magnitude 253, above every threshold |
| Parser.StackedPrefix | core/parser.c:240-241 | popping entries keeps the stack well formed and ordered |
| Parser.StackedPush | core/parser.c:478-489 | pushing an entry whose threshold is below the top's magnitude keeps the stack ordered |
| Parser.Combine | core/parser.c:300-424 | a binary node fails exactly when `.` lacks a name, `:` lacks a call of a name, or a call lacks a call node, and then the error names the offending node; corrected: a `:` send records its left operand as its target, with the called name and arguments |
| Parser.CombineAsWritten | core/parser.c:404-424 | as written: fails exactly when `Combine` does and agrees with it except for `:`, whose send records itself as its target |
| Parser.AsWrittenSendDropsTarget | core/parser.c:414-418 | as written, `a:m()` and `b:m()` build the same node for different targets, where the corrected nodes differ |
| Parser.SendKeepsTarget | core/parser.c:414-418 | corrected: two sends equal over the same call have equal targets |
| Parser.Reduce | core/parser.c:236-459 | reducing pops the top entry; the unreachable default is hit exactly for a `(` entry over an operand |
| Parser.ReduceArity | core/parser.c:247-255 | an operator entry fails for too few operands exactly when fewer than its arity are there; otherwise that many top operands become one node |
| Parser.CompoundAssignment | core/parser.c:344-383 | `a op= b` becomes `a = (a op b)` with the operator spelled without `=` |
| Parser.Settle | core/parser.c:477-486 | the loop only pops, never reaches the default, and on success leaves a top entry binding less tightly than the bound |
| Parser.SettlePopsTighter | core/parser.c:477-486 | every popped entry has magnitude at most the bound: exactly the ones binding at least as tightly go |
| Parser.PopsOneMore | core/parser.c:483-485 | one more popped entry within the bound keeps all popped entries within it |
| Parser.PushOperator | core/parser.c:462-490 | putting an operator keeps the stack ordered and on success leaves its entry on top of the settled stack |
| Parser.LastParen | core/parser.c:506-518 | the topmost `(` entry, with no `(` above it, or none on the stack |
| Parser.CloseParen | core/parser.c:503-520 | closing a parenthesis never reaches the default and keeps the stack ordered |
| Parser.CloseParenFinds | core/parser.c:503-520 | the answer is true exactly when a `(` is on the stack, leaving the entries below the topmost one; false leaves the stack empty |
| Parser.Finish | core/parser.c:523-551 | success exactly when a node is returned; with no entries, success exactly when one operand is left, and it is the result |
| Parser.FinishFixed | core/parser.c:526-528 | corrected, finishing never reaches the default and never succeeds with a `(` still open |
| Parser.AsWrittenUnclosedParen | core/parser.c:441-442 | as written, `(1` leaves a `(` entry over one operand and finishing reaches the unreachable default; corrected it reports the unclosed parenthesis |
| Parser.ExprBuilder.constructor | core/parser.c:210-213 | both stacks start empty |
| Parser.ExprBuilder.PutOperand | core/parser.c:216-221 | the node is pushed on the operand stack; the operators are unchanged |
| Parser.ExprBuilder.PopOperand | core/parser.c:224-232 | the top operand is removed and returned, or nothing when there is none |
| Parser.ExprBuilder.GenOneExpr | core/parser.c:236-459 | the stacks change as the reduction of the top entry says |
| Parser.ExprBuilder.PutOperator | core/parser.c:462-490 | the stacks change as putting the operator says |
| Parser.ExprBuilder.PutLParen | core/parser.c:493-498 | the `(` entry is pushed; the operands are unchanged |
| Parser.ExprBuilder.PutRParen | core/parser.c:503-520 | the stacks and answer are those of closing a parenthesis |
| Parser.ExprBuilder.GenerateExpr | core/parser.c:523-551 | the status and node are those of finishing the stacks |
| Parser.Operator | core/parser.c:651-657 | `+` and `-` in operand position become POS and NEG; every other operator stays |
| Parser.Advance | core/parser.c:640-732 | one loop iteration keeps the stack ordered; a stop never reaches the default and consumes at most the current token |
| Parser.Build | core/parser.c:640-733 | the loop ends with an ordered stack, without reaching the default, at a token index within the input |
| Parser.ParseSpec | core/parser.c:633-738 | parsing an expression succeeds exactly when it yields a node, ending within the tokens |
| Parser.ParseFixedReachable | core/parser.c:633-738 | corrected, parsing an expression never reaches the unreachable default |
| Parser.Feed | core/parser.c:640-732 | feeding one token to the builder does what one loop iteration says, in place |
| Parser.ParseExpression | core/parser.c:633-738 | the builder loop and the final generation give the result of the expression definition |
| Parser.ReduceBinary | core/parser.c:300-402 | reducing a binary entry whose operands combine replaces them by the node |
| Parser.ReduceRejected | core/parser.c:386-399 | reducing a binary entry whose operands do not combine fails with both popped |
| Parser.ReduceUnary | core/parser.c:268-289 | reducing a unary entry wraps the top operand |
| Parser.PushOnto | core/parser.c:483-484 | an operator whose threshold is below the top entry's magnitude is pushed without reducing |
| Parser.PushAfterReduce | core/parser.c:483-486 | an operator whose threshold reaches the top entry's magnitude first reduces that entry |
| Parser.FinishAfterReduce | core/parser.c:526-528 | finishing reduces the top entry first |
| Parser.OperandStep | core/parser.c:642-644 | a literal or a name is pushed as an operand and the next token follows an operand |
| Parser.OperatorStep | core/parser.c:645-659 | an operator token is put after the unary rewrite and the next token is in operand position |
| Parser.LParenStep | core/parser.c:663-673 | a `(` in operand position not followed by `)` pushes the `(` entry |
| Parser.RParenStep | core/parser.c:678-683 | a `)` that finds its `(` closes it and stands for an operand |
| Parser.EndStep | core/parser.c:724-725 | an end-of-statement token ends the expression without being consumed |
| Parser.PrecedenceFacts | core/token.h:26-47 | `*` binds tighter than `+`, `-` groups left to right, `=` right to left, and `(` is above `+` |
| Parser.MulBindsTighter | core/parser.c:462-490 | in `x + y * z` the `*` goes above the `+`, so the result is `x + (y * z)` |
| Parser.AddAfterMul | core/parser.c:477-486 | in `x * y + z` the `+` first reduces the `*` |
| Parser.SubtractionLeftToRight | core/parser.c:471-475 | in `x - y - z` the second `-` first reduces the first |
| Parser.AssignmentRightToLeft | core/parser.c:474-475 | in `a = b = c` the second `=` stays above the first, giving `a = (b = c)` |
| Parser.ParenthesesGroup | core/parser.c:503-520 | in `(x + y)` the `)` reduces the `+` and pops the `(` |
| Parser.LeadingMinus | core/parser.c:653-656 | a leading `-` is NEG and wraps the operand after it |
| Parser.MissingOperand | core/parser.c:447-458 | `x +` with nothing after it reports too few operands for `+` |
| Parser.FieldNeedsName | core/parser.c:386-399 | `x . n` makes a field access when the right operand is a name and is rejected otherwise |
| Codegen.HoldsConcat | core/codegen.c:100-162 | a free list split in two holds the registers of its two parts |
| Codegen.HoldsWithin | core/codegen.c:227 | a free list whose ranges lie within bounds holds only registers within them |
| Codegen.HoldsSplit | core/codegen.c:116-162 | the list `a + [r] + b` holds the registers of its three parts |
| Codegen.SplitAt | core/codegen.c:124-125 | in a sorted, coalesced list, the entry at a position is apart from the entries before and after it |
| Codegen.Removed | core/codegen.c:100-114 | removing entry `p` keeps the entries before it and shifts the ones after it down by one |
| Codegen.RemovedFrees | core/codegen.c:100-114 | removing an entry keeps the list coalesced and takes away exactly that entry's registers |
| Codegen.InsertedFrees | core/codegen.c:116-162 | inserting a range where it fits keeps the list sorted and coalesced, adds exactly its registers, and keeps the bound on the ends |
| Codegen.MergeBoth | core/codegen.c:127-130 | a range touching both neighbours joins them into one entry, keeping the list coalesced |
| Codegen.MergeBothHolds | core/codegen.c:127-130 | the joined list holds the old registers and the inserted ones |
| Codegen.MergeBefore | core/codegen.c:131-133 | a range touching only the entry before extends that entry |
| Codegen.MergeBeforeHolds | core/codegen.c:131-133 | the extended list holds the old registers and the inserted ones |
| Codegen.MergeAfter | core/codegen.c:137-140 | a range touching only the entry after extends that entry downwards |
| Codegen.MergeAfterHolds | core/codegen.c:137-140 | the extended list holds the old registers and the inserted ones |
| Codegen.MergeNone | core/codegen.c:154-161 | a range touching neither neighbour becomes a new entry, keeping the list coalesced |
| Codegen.MergeNoneHolds | core/codegen.c:154-161 | the longer list holds the old registers and the inserted ones |
| Codegen.HoldsAt | core/codegen.c:116-162 | a list's registers are those before an entry, of it, and after it |
| Codegen.HoldsPrefix | core/codegen.c:173-186 | the registers of the first `p` entries are those of the first `p - 1` and of entry `p - 1` |
| Codegen.HoldsAround | core/codegen.c:154-161 | a range put between the two halves of a list adds exactly its registers |
| Codegen.ReplaceKeeps | core/codegen.c:127-140 | replacing entries by one range that fits between the neighbours keeps the list coalesced and within its bound |
| Codegen.ReplaceEndsBy | core/codegen.c:127-140 | replacing entries by a non-empty range keeps every entry non-empty and within the bound |
| Codegen.ReplaceAt | core/codegen.c:127-140 | the entries of a list with a run of entries replaced by one range, position by position |
| Codegen.Scan | core/codegen.c:173-186 | the scan stops at a range of exactly `n` registers, else points to a larger range, else to fresh registers |
| Codegen.ChooseFits | core/codegen.c:169-196 | first fit for an exact size; else the smallest larger range, the first of equal ones; else none larger exists |
| Codegen.ScanFits | core/codegen.c:173-186 | the scan from a position completes the choice established before it |
| Codegen.ScanStep | core/codegen.c:182-185 | one more entry updates the best larger range as the loop does |
| Codegen.AllocateTakes | core/codegen.c:164-205 | allocation keeps the free-list invariant, hands out `n` registers from 1 up that were all available, makes exactly those unavailable, and keeps the touched maximum covering the top |
| Codegen.TakeExact | core/codegen.c:176-181 | taking a whole free range of `n` registers removes it and makes exactly those registers unavailable |
| Codegen.TakeSplit | core/codegen.c:187-194 | taking the first `n` registers of a larger range shrinks it and makes exactly those unavailable |
| Codegen.SplitRegisters | core/codegen.c:190-191 | cutting the first `n` registers off an entry removes exactly those registers, which were free |
| Codegen.HoldsUpdate | core/codegen.c:190-191 | the registers of a list with one entry replaced |
| Codegen.PositionFrom | core/codegen.c:257-279 | the first entry from `i` on not starting below `s`, all before it starting below `s` |
| Codegen.Position | core/codegen.c:245-279 | where a freed block belongs in the sorted list: every entry before starts below it, the entry at it does not |
| Codegen.ReleaseReturns | core/codegen.c:218-280 | freeing an allocated block keeps the invariant and makes exactly its registers available again, leaving the touched maximum alone |
| Codegen.ReleaseAbsorbs | core/codegen.c:229-237 | freeing the top block when the last free range then reaches the top lowers the top below both |
| Codegen.ReleaseInserts | core/codegen.c:242-279 | freeing a block below the top inserts it into the list where it fits |
| Codegen.AllocateKeepsVars | core/codegen.c:207-216 | an allocation leaves every variable's register in use |
| Codegen.ReleaseKeepsVars | core/codegen.c:282-291 | freeing a block holding no variable leaves every variable's register in use |
| Codegen.AllocateOneFresh | core/codegen.c:198-204 | with an empty free list, one register comes from just above the top |
| Codegen.PlaceAsWrittenReadsPastEnd | core/codegen.c:251 | as written, freeing register 3 after register 2 (free list [2, 3), top 4) misses the back test and the binary search reads past the list |
| Codegen.SplitCheckRejectsOneLeft | core/codegen.c:192 | as written, splitting [1, 4) for 2 registers leaves one register, which the assertion `start + 1 < end` rejects although the split is right |
| Codegen.SetArgc | core/codegen.c:305-317 | the metadata is recorded exactly when the argument count fits a byte and the optional count fits a byte or is SIZE_MAX, which is stored as 255 |
| Codegen.GenFuncMeta | core/codegen.c:320-332 | a function is made exactly when the touched maximum is below USHRT_MAX, with room for registers 0 to that maximum |
| Codegen.AllocatedFitsFrame | core/codegen.c:324-329 | every register an allocation hands out lies below the frame's register count |
| Codegen.FrameScope.constructor | core/codegen.c:67-75 | no register used and no variable |
| Codegen.FrameScope.Reset | core/codegen.c:92-98 | back to the state of a new frame scope |
| Codegen.FrameScope.ListRemove | core/codegen.c:100-114 | entry `p` is deleted in place, keeping the order; nothing else changes |
| Codegen.FrameScope.ListInsert | core/codegen.c:116-162 | the range is inserted at `p` in place, merged with touching neighbours; nothing else changes |
| Codegen.FrameScope.AllocRegs | core/codegen.c:164-205 | the new state and the first register are those of the allocation definition |
| Codegen.FrameScope.ScanFreeList | core/codegen.c:169-196 | the loop's choice is the first exact fit, else the best larger fit, else none |
| Codegen.FrameScope.FreeRegs | core/codegen.c:218-280 | corrected, the new state is that of the release definition |
| Codegen.FrameScope.InsertionPoint | core/codegen.c:245-279 | corrected, the front, back and binary-search cases find the block's sorted position |
| Codegen.FrameScope.AllocVar | core/codegen.c:207-216 | one register is allocated and bound to the new name |
| Codegen.FrameScope.FreeVar | core/codegen.c:282-291 | the name is forgotten and its register released |
| Codegen.FrameScope.FindVar | core/codegen.c:293-302 | 0 exactly when there is no such variable, else its register |
| CodegenScopes.LastFrameOrVarAt | core/codegen.c:581-591 | the position found is a frame or variable scope with only loop scopes above it; none means every scope is a loop scope |
| CodegenScopes.LastLoopAt | core/codegen.c:608-619 | the position found is a loop scope with only variable scopes above it; none means every loop scope lies below a frame scope above it, or there is none |
| CodegenScopes.LinkedPush | core/codegen.c:511-521 | a pushed variable scope that records the frame the stack resolves to keeps every variable scope linked to its frame |
| CodegenScopes.PushOwned | core/codegen.c:484-540 | after a push every scope object created is still owned exactly once |
| CodegenScopes.FreshOwned | core/codegen.c:493 | a newly created scope object put on the stack is owned once, as the last one created |
| CodegenScopes.ReuseOwned | core/codegen.c:488-491 | taking the head of a free list onto the stack keeps every scope object owned once |
| CodegenScopes.PushPlaced | core/codegen.c:484-540 | after a push every scope object sits where its kind says |
| CodegenScopes.PushKeeps | core/codegen.c:484-540 | a push keeps the invariant, keeps the old stack below, and puts the returned scope of the pushed kind on top |
| CodegenScopes.PopKeeps | core/codegen.c:542-574 | a pop keeps the invariant, leaves the stack below the old top, and puts the old top at the head of its kind's free list |
| CodegenScopes.PopOwned | core/codegen.c:547-550 | moving the top onto a free list keeps every scope object owned once |
| CodegenScopes.PopPlaced | core/codegen.c:542-574 | a pop puts the popped scope on the free list of its own kind |
| CodegenScopes.PushThenPop | core/codegen.c:484-574 | popping what was just pushed restores the stack, and the whole state when the push reused a free scope |
| CodegenScopes.PopThenPush | core/codegen.c:484-574 | popping the top and pushing its kind again brings back the very scope just popped and the same state |
| CodegenScopes.PushResolves | core/codegen.c:593-619 | after pushing a frame, it is the last frame and no loop is visible; a variable scope changes neither; a loop scope becomes the last loop in the same frame |
| CodegenScopes.ScopeStack.constructor | core/codegen.c:424-429 | an empty stack and empty free lists, satisfying the invariant |
| CodegenScopes.ScopeStack.PushFrame | core/codegen.c:484-498 | the new state and the returned scope are those of a frame push, and the invariant holds |
| CodegenScopes.ScopeStack.PushVar | core/codegen.c:500-524 | the new state and the returned scope are those of a variable-scope push, whose frame the walk down finds, and the invariant holds |
| CodegenScopes.ScopeStack.PushLoop | core/codegen.c:526-540 | the new state and the returned scope are those of a loop push, and the invariant holds |
| CodegenScopes.ScopeStack.PopFrame | core/codegen.c:542-551 | the new state is that of popping a frame scope, and the invariant holds |
| CodegenScopes.ScopeStack.PopVar | core/codegen.c:553-563 | the new state is that of popping a variable scope, and the invariant holds |
| CodegenScopes.ScopeStack.PopLoop | core/codegen.c:565-574 | the new state is that of popping a loop scope, and the invariant holds |
| CodegenScopes.ScopeStack.LastFrameOrVar | core/codegen.c:581-591 | the walk down stops at the topmost frame or variable scope |
| CodegenScopes.ScopeStack.LastFrame | core/codegen.c:593-606 | the walk down returns the frame the stack resolves to |
| CodegenScopes.ScopeStack.LastLoop | core/codegen.c:608-619 | the walk down returns the nearest loop scope of the current frame, or none |
| CodegenScopes.VarScope.constructor | core/codegen.c:342-347 | a variable scope with no names, attached to its frame |
| CodegenScopes.VarScope.AllocVar | core/codegen.c:368-381 | the name is appended and given the register a one-register allocation in the frame returns |
| CodegenScopes.VarScope.FreeVars | core/codegen.c:383-391 | the names are freed last first; afterwards the frame has forgotten them and exactly their registers are available again |
| CodegenScopes.RegOfStep | core/codegen.c:387-389 | the registers of the names from `i` on are that of name `i` and those from `i + 1` on |
| AsmNames.PseudoOf | core/assembly.c:60-66 | the index of the name among the pseudo-operation names, and -1 exactly when it is none of them |
| AsmText.UpperStr | core/strutil.c:35-38 | every character is upper-cased in place, the length kept |
| AsmText.SkipBlanks | core/assembly.c:726 | the blanks from `i` are passed over, stopping at a non-blank or the end |
| AsmText.WordEnd | core/assembly.c:728 | the word from `i` ends at the first blank or the end |
| AsmText.SkipSpaces | core/assembly.c:753-758 | the white space `%i` skips ends at a non-space or the end |
| AsmText.DigitRun | core/assembly.c:753-758 | the digits of the base from `i` end at a non-digit or the end |
| AsmText.ScanDigits | core/assembly.c:753-758 | a conversion that succeeds takes at least one character |
| AsmText.ScanInt | core/assembly.c:753-758 | a conversion that succeeds takes at least one character of the string |
| AsmText.Operands | core/assembly.c:752-763 | at most `room` numbers; none exactly when no room or the first conversion fails; the first is the first conversion's value |
| AsmText.OperandStart | core/assembly.c:726-729 | the operands start within the line |
| AsmText.ParseText | core/assembly.c:721-770 | none exactly for a skipped line; an instruction has a known mnemonic and one to three operands; a pseudo-operation has a known name |
| AsmText.NextLine | core/assembly.c:710-720 | the end of input comes only at an empty read; any other result consumes at least one line |
| AsmText.TasReader.constructor | core/assembly.c:676-682 | the reader holds its input, line 0, and no message |
| AsmText.TasReader.ParseLine | core/assembly.c:704-772 | the result and the lines consumed are those of the line definition; the line number counts every line read; an error records its message with that line number |
| AsmText.ScanNumeral | core/assembly.c:753-758 | a decimal numeral followed by a non-digit is read back whole, with its sign |
| AsmText.ScanZero | core/assembly.c:753-758 | a lone '0' is read as zero |
| AsmText.RunValueText | core/assembly.c:753-758 | the value accumulated over a run of digits is the value the digit text denotes |
| AsmText.ScanDecimalRun | core/assembly.c:753-758 | decimal digits not starting with '0' are read as that decimal number |
| AsmText.ScanDecimal | core/assembly.c:753-758 | `%i` reads back the value of a decimal text followed by a non-digit |
| AsmText.DigitRunEnds | core/assembly.c:753-758 | a run of digits ends where the first non-digit is |
| AsmText.Printed | core/assembly.c:752-763 | each operand printed as its decimal text |
| AsmText.CommasScan | core/assembly.c:753-758 | decimal texts joined by commas scan as the operands in order |
| AsmText.OperandsOfScans | core/assembly.c:752-763 | every operand scanned is converted, up to the room there is, and the scan reaches the end |
| AsmText.PrintedTexts | core/assembly.c:752-763 | the printed operands are decimal texts of them |
| AsmText.OperandsOfJoined | core/assembly.c:752-763 | printed operands joined by commas are read back, all of them |
| AsmText.InstrLineRoundTrip | core/assembly.c:723-770 | a known mnemonic in any case, a blank and one to three operands printed in decimal with commas read back as that instruction with those operands |
| AsmText.InstrLineOf | core/assembly.c:746-770 | a line with a known mnemonic whose operands run to its end is that instruction with those operands |
| AsmText.FirstWord | core/assembly.c:726-731 | the mnemonic of `name + " " + rest` is the upper-cased name and the operands start after the blank |
| AsmText.JoinedStart | core/assembly.c:726-729 | printed operands start with a sign or a digit, never a blank |
| AsmText.TrailingJunkFails | core/assembly.c:765-769 | anything but blanks or a '#' comment after the operands makes the line an error |
| AsmText.NextLineSkips | core/assembly.c:713-733 | a skipped line is counted once and reading goes on with the next |
| PyStr.LStrip | tools/cloc.py:122 | no longer than the line, and what is left does not start with white space |
| PyStr.LStripSpaces | tools/cloc.py:122 | what is left is a suffix of the line, and every character removed from the front is white space |
| PyStr.RStrip | tools/cloc.py:122 | no longer than the line, and what is left does not end with white space |
| PyStr.RStripSpaces | tools/cloc.py:122 | what is left is a prefix of the line, and every character removed from the back is white space |
| PyStr.Strip | tools/cloc.py:122 | the result has white space on neither end and is no longer than the line |
| PyStr.StripTwice | tools/cloc.py:122 | stripping is idempotent |
| PyStr.StrippedFixed | tools/cloc.py:87 | stripping a line with white space on neither end leaves it as it is |
| PyStr.FindFrom | tools/cloc.py:88 | -1, or a position at or after `i` where the text fits in the line |
| PyStr.FindFromFirst | tools/cloc.py:88 | the text occurs at the position found, and at no position from `i` before it; -1 means at none from `i` |
| PyStr.Find | tools/cloc.py:88 | `str.find`: -1 or a position where the text fits in the line |
| PyStr.FindFirst | tools/cloc.py:88 | the text occurs where `str.find` says and nowhere before; -1 means nowhere |
| PyStr.RFindBelow | tools/cloc.py:89 | -1, or a position below `i` where the text fits in the line |
| PyStr.RFindBelowLast | tools/cloc.py:89 | the text occurs at the position found and nowhere after it below `i` |
| PyStr.RFind | tools/cloc.py:89 | `str.rfind`: -1 or a position where the text fits in the line |
| PyStr.RFindLast | tools/cloc.py:89 | the text occurs where `str.rfind` says and nowhere after |
| PyStr.FindRFind | tools/cloc.py:88-91 | `find` and `rfind` are both -1 or both found, the first no later than the last |
| PyStr.FindOccurs | tools/cloc.py:88-91 | `find` and `rfind` are -1 exactly when the text does not occur |
| PyStr.OnceFirstLast | tools/cloc.py:98-104 | the first and last occurrences coincide exactly when the text occurs once |
| PyStr.BeforeFirstLast | tools/cloc.py:94 | an opening text occurs before a closing one exactly when its first occurrence lies before the closing one's last |
| Cloc.GlobLiteral | tools/cloc.py:112 | a pattern without `*` matches only the name itself |
| Cloc.GlobSuffix | tools/cloc.py:112 | `*` followed by a literal suffix matches exactly the names ending with it |
| Cloc.FindTypeFrom | tools/cloc.py:111-117 | the first type from `i` on whose patterns match, no earlier one matching; none when none does |
| Cloc.FindType | tools/cloc.py:111-117 | the first type in the list whose patterns match the path, none when none does |
| Cloc.CFile | tools/cloc.py:63-73 | a name ending in ".c" gets the "C" type, as the header pattern does not match it |
| Cloc.LookUpType | tools/cloc.py:111-117 | the `for`/`else` loop finds the type the first-match definition picks |
| Cloc.Measure | tools/cloc.py:76-107 | the measure is at most 6, and 0 for a type without block comments |
| Cloc.MeasureNone | tools/cloc.py:106-107 | 0 exactly when neither delimiter occurs |
| Cloc.MeasureOpens | tools/cloc.py:97-100 | 1 or 2 exactly when the opening delimiter occurs once and the closing one not; 1 exactly when the line also starts with it |
| Cloc.MeasureCloses | tools/cloc.py:102-105 | 3 or 4 exactly when the closing delimiter occurs once and the opening one not; 3 exactly when the line also ends with it |
| Cloc.MeasureBoth | tools/cloc.py:92-96 | 5 or 6 exactly when an opening delimiter comes before a closing one; 5 exactly when the line starts with one and ends with the other; NotImplementedError exactly for both in the other order |
| Cloc.MeasureUnmatched | tools/cloc.py:98-104 | an unmatched-delimiter error exactly when one delimiter repeats and the other is absent |
| Cloc.FirstAtStart | tools/cloc.py:100 | the first occurrence is at 0 exactly when the line starts with the text |
| Cloc.LastAtEnd | tools/cloc.py:95 | the last occurrence ends the line exactly when the line ends with the text |
| Cloc.StepCounts | tools/cloc.py:122-147 | corrected, each line adds one to the total, one to blank for a blank line outside a block, one to comment for a line that is all comment, and nothing for a line with code |
| Cloc.StepAsWritten | tools/cloc.py:134-136 | as written, the loop counts the same except that a code-5 line outside a block is never counted as comment |
| Cloc.OneLineCommentCounted | tools/cloc.py:129-136 | corrected, a line `/* note */` alone counts as one comment line |
| Cloc.OneLineCommentMissed | tools/cloc.py:134-136 | as written, the same line leaves the comment count at zero |
| Cloc.OneLineCommentIsFive | tools/cloc.py:95 | `/* note */` measures 5 with the C delimiters and is not a line comment |
| Cloc.CountBounds | tools/cloc.py:118-147 | counting adds one to the total for every line, and blank plus comment lines never exceed the total |
| Cloc.Blanks | tools/cloc.py:125-126 | there are no more blank lines than lines |
| Cloc.LineComments | tools/cloc.py:127-128 | there are no more line comments than lines |
| Cloc.StepGrows | tools/cloc.py:121-147 | each line adds one to the total and at most one to blank and comment together, never taking any away |
| Cloc.StepNoBlocks | tools/cloc.py:124-128 | without a block-comment pair a line is blank, a line comment, or code |
| Cloc.CountLineCommentsOnly | tools/cloc.py:118-147 | without a block-comment pair the loop never fails and counts exactly the blank lines and the line comments |
| Cloc.ScanCounts | tools/cloc.py:110-151 | no result exactly when no type matches; a result has the file's type name and size, one line in the total per line, and no more blank and comment lines than lines |
| Cloc.CountLine | tools/cloc.py:122-147 | the body of the loop computes the corrected step for one line |
| Cloc.ScanFile | tools/cloc.py:110-151 | the type lookup and the counting loop compute the scan definition of the file |
| Cloc.SumConcat | tools/cloc.py:54-60 | the sum over two lists joined is the sum of their sums |
| Cloc.MergedSums | tools/cloc.py:54-60 | adding up the sums of two lists gives the sum of the joined list |
| Cloc.SumWellCounted | tools/cloc.py:204-210 | the code-line count printed for a group of well-counted files is never negative |
| Cloc.GroupedStats.constructor | tools/cloc.py:37-44 | an empty group of the given type, whose counters are the sums of its files |
| Cloc.GroupedStats.Add | tools/cloc.py:46-52 | the file is appended and its counters added; the counters stay the sums of the files |
| Cloc.GroupedStats.Merge | tools/cloc.py:54-60 | the other group's files are appended, even when it is this group, and its counters added; the counters stay the sums of the files |
| CDocStr.Before | tools/cdocstr.py:44 | the text before the first '(': a prefix without '(', followed by '(' when shorter than the synopsis |
| CDocStr.Capitalize | tools/cdocstr.py:44 | the capitalized text has the same length |
| CDocStr.CapitalizeTwice | tools/cdocstr.py:44 | capitalizing is idempotent and changes only letters |
| CDocStr.Title | tools/cdocstr.py:44 | the title is no longer than the synopsis and holds no '(' |
| CDocStr.TitleOfCall | tools/cdocstr.py:44 | for a synopsis `name(args`, the title is the name capitalized |
| CDocStr.Describe | tools/cdocstr.py:45-55 | the description is empty exactly when every line after the synopsis is blank |
| CDocStr.DescribeSnoc | tools/cdocstr.py:46-55 | a trailing blank line changes nothing; a line of text after only blanks is the whole description; otherwise it is joined on with a space, or a line break when a blank line came before it |
| CDocStr.DescribeSnocBlank | tools/cdocstr.py:50-54 | a trailing blank line adds nothing to the description |
| CDocStr.DescribeSnocFirst | tools/cdocstr.py:47-49 | a line of text after nothing but blank lines is the whole description |
| CDocStr.DescribeSnocText | tools/cdocstr.py:46-55 | a trailing line of text is joined on with the separator the line before calls for |
| CDocStr.DescribeNoBlanks | tools/cdocstr.py:45-55 | without blank lines the description is the lines joined with single spaces |
| CDocStr.JoinSnoc | tools/cdocstr.py:55 | joining one more piece appends it |
| CDocStr.AppendLine | tools/cdocstr.py:47-49 | a line with text is appended to the pieces, followed by a space |
| CDocStr.BreakLine | tools/cdocstr.py:50-52 | a blank line turns the last separator into a line break |
| CDocStr.LeadingBlank | tools/cdocstr.py:50-51 | a blank line before any text adds no piece |
| CDocStr.FromComment | tools/cdocstr.py:40-55 | the loop builds the doc-string with the synopsis, its title and the description definition |
| CDocStr.CollectDocStr | tools/cdocstr.py:58-75 | the loop over the lines yields exactly the doc-strings, or the error, of the collection definition |
| CDocStr.PrependNothing | tools/cdocstr.py:70 | yielding no doc-strings before a result changes nothing |
| CDocStr.PrependTwice | tools/cdocstr.py:70 | yielding doc-strings in two steps is yielding them once |
| CDocStr.ErrorAtEnd | tools/cdocstr.py:74-75 | the only error is an unterminated comment, and it names the file's last line |
| CDocStr.NoMarkers | tools/cdocstr.py:64-66 | a file with no line starting with the marker has no doc-strings |
| CDocStr.OneLineNotClosed | tools/cdocstr.py:64-75 | the opening line is never checked for the closing delimiter, so a one-line doc-string is reported as not terminated at line 1 |
| CDocStr.TwoLineDocStr | tools/cdocstr.py:58-75 | a two-line doc-string gives the synopsis of the opening line and, as description, the closing line without its delimiter and trailing blanks |
| CDocStr.Escape | tools/cdocstr.py:80-83 | escaping never shortens the text |
| CDocStr.EscapeRoundTrip | tools/cdocstr.py:80-83 | undoing the doubling of backslashes gives the text back |
| Repl.IsExpr | modules/repl.c:164-202 | the listed node kinds are expressions; the module node and the statement kinds are not |
| Repl.BuiltIsExpr | modules/repl.c:164-202 | every node the expression builder makes is an expression kind, and an assignment kind exactly when built as an assignment |
| Repl.CombineBuilt | core/parser.c:290-402 | a binary operator over built operands makes a built node |
| Repl.ReduceBuilt | core/parser.c:236-459 | reducing the top operator keeps every operand on the stack a node the builder can make |

## Left out

- Garbage collection proper, object moving, and allocation: an allocation
  is a fresh object, and write barriers inside containers are no-ops.
- I/O, the file system, dynamic libraries and the Windows branches of
  core/fsutil.c: they are calls into the operating system.
- Floating point: the Float type, float hashing and the load-factor
  arithmetic.
- FuncObj.MetaConv: `zis_func_obj_meta_no_abs` is not part of this model;
  it is taken as the magnitude of `no`.
- `zis_invoke_pass_args_p` (core/invoke.c:204-238) packs arguments from a
  packed array object and is not modelled.
- Invoke.Prepare: the "not callable" and argc errors are returned as values;
  the exception objects they format are not modelled.
- BigInt.Complement: `bigint_complement` takes separate input and output
  vectors; every caller passes the same vector, so the model complements in
  place.
- BigInt.TruncAsWritten: computes the bit count as `n - n / 32`, as the
  source does (core/intobj.c:471); `BigInt.Trunc` is the corrected version
  (see Findings).
- BigInt.Add: the doc comment of `bigint_add` (core/intobj.c:116) calls the
  result a product; the code adds, and the model follows the code.
- `bigint_div` (core/intobj.c:306-375), the multi-cell long division, is not
  modelled.
- BigInt.Mul: the portable overflow checks are modelled as cell bounds that
  the proof shows always hold; the GNU `__builtin_add_overflow` variant is
  the intended behaviour and is what the model follows.

- IntObj.ParseInt: `num_width` is computed in floating point as
  `ceil(digit_count * log2(base))` (core/intobj.c:713); the model uses the
  exact integer `BitsFor(base^digit_count)`, which the floating-point value
  is taken to equal.
- IntObj.ParseInt: the end pointer for a text with no digit is just past the
  sign, as the code sets it; the result is a reference, not an object
  pointer with the `NULL` convention, and the digit check uses
  `CharDigit` with the `(unsigned)-1` of non-digits as an out-of-range
  value.
- IntObj.SmallintToStr: the length estimate for a `NULL` buffer
  (core/intobj.c:859-864) divides by a floating-point `log2(base)` and is not
  modelled; neither is the estimate of `zis_int_obj_value_s`
  (core/intobj.c:805-811).
- IntObj.ValueS: on a -1 result the buffer contents are left unspecified.
- `int_obj_width` (core/intobj.c:562-566) is `bigint_width` on the object's
  cells (`BigInt.Width`); `int_obj_clone` (core/intobj.c:581-588) is an
  allocation plus `bigint_copy` and is not modelled separately.
- The object-level arithmetic, division, power, shifts, bitwise operations,
  truncation, conversions to `int64_t`/`double` and the `count`/`length`
  operations of core/intobj.c (from line 748 and 888 on) are not modelled;
  the cell-vector algorithms they call are (`BigInt`).
- Types: symbols are interned, so the name map and the statics map are
  keyed by the symbol's text; the name-map reserve in
  core/typeobj.c:112-125 is a capacity hint with no visible effect; the
  debug log of a failing method meta is left out. `zis_make_value` for a
  static is an input (`NativeStaticDef.value`, `None` when it fails).
  Sizes are unbounded: `size_t` overflow of the object size is not modelled.
- Maps: key equality is `==` and hashing a function of the map that may
  fail; `zis_object_equals` and `zis_object_hash` can run user code, which
  is not modelled. The load factor is a `real` rather than a `float`, so
  the rounding of `ceil` and of the threshold cast is exact. Node
  allocation, write barriers and the GC-visible locals are not modelled.
  `zis_map_obj_foreach` (core/mapobj.c:435-456) is modelled only through
  its one caller here, `ReverseLookup`; a general callback is not.
  `size_t` overflow of the node count is not modelled.
- Symbols: `symbol_registry_wr_visitor` (core/symbolobj.c:266-319), which
  drops symbols the collector found dead, and `zis_symbol_registry_destroy`
  belong to garbage collection and memory release and are not modelled.
  `zis_symbol_registry_gets` is `get` on the UTF-8 bytes of a String
  object and is not modelled separately. A length of `(size_t)-1`, meaning
  `strlen`, is not modelled: the bytes are given. The methods `==`, `hash`,
  `to_string` and `for` are native-function bodies and are left out. The
  load factor 0.9 is the exact `real` rather than the nearest `double`. `memcmp`
  is taken to return the difference of the first differing bytes; C fixes
  only its sign, and `Compare` states only the sign and the range.

- Strings: `zis_string_obj_new_esc` (core/stringobj.c:180-257) takes an
  escape-translating callback and is not modelled; `compare`
  (core/stringobj.c:533-555), which panics unless both strings are C1, and
  `write_to_stream`, which goes through a stream buffer, are not modelled.
  The native methods and the `join`/`concat` statics only unpack arguments
  and are left out; `concat` is `Join` without a separator. A length of
  `(size_t)-1`, meaning `strlen`, is not modelled: the bytes are given.
  `new`'s check that the decoding loop stopped exactly at the end can never
  fail, because a step never passes the end, and is left out. `to_u8str`'s
  assertion that every character encodes becomes the requirement `Encodes`.
  Allocation, the GC-visible locals and `size_t` overflow of the length are
  not modelled.

- Memory manager: the collectors (`gc_fast`, `gc_full`), object moving,
  the new and old spaces' chunk lists and their iterators, and the heap
  walks over raw memory are not modelled; virtual memory and `malloc`
  are inputs (the chunk's base address, the big object's address). The
  allocation retry loops of `zis_objmem_alloc_ex` (at most three FAST
  collections for the new space, one FULL for the old space, then an
  out-of-memory panic; for the big space one FULL collection, then the
  threshold raised to fit) depend on what a collection frees and are left
  out; `SpaceFor` states which space each request is tried in. `size_t`
  arithmetic on object sizes and chunk pointers is unbounded here.
- ObjMem.RememberedSet: a bucket's bitset is given by its set of set bits;
  the bitset operations themselves are modelled in `Bitset`.
- ObjMem.GcControl.Gc: which collector runs is recorded in a ghost field;
  the debug timing and post-GC checks are left out.

- ModuleObj.Module: names are symbols in the runtime and here their text;
  other modules are named by a number, and a function or type object the
  loader creates is represented by the definition it was made from
  (`zis_func_obj_set_module` and `zis_type_obj_load_native_def` are not
  repeated here). The write barriers and the GC-safe locals are left out.
- ModuleObj.Module.ForeachParent: the visitor's result for each module is
  given as a function of the module, so a visitor with side effects is not
  modelled; the same holds for the lookup `ParentGet` makes.
- ModuleObj.Initializer: the source asserts that the register count nl + 1
  is not 0; the model keeps the 16-bit wrap-around instead of refusing nl =
  0xffff.
- `zis_module_obj_do_init` (core/moduleobj.c:327-336) invokes the
  initializer and the native methods of the Module type after it call into
  the interpreter; they are not modelled.

- StreamObj.Stream: only the UTF-8 text mode and binary mode are modelled
  (other encodings panic in the source). The backend (`read`, `write`) is
  not called: what its `read` returns is a parameter, `None` for failure,
  and a failed read is taken to write nothing. `BUFSIZ` is taken as 8192.
- StreamObj.Stream.CharBufPtr: whether the flush of an output stream
  succeeded is a parameter, since the source ignores its result; the
  `assert(rest_size)` that follows is a debug check and is not modelled,
  so a failed flush reports 0 bytes left.
- StreamObj.ReadLine: `read_char` is abstracted as the sequence of
  characters the stream yields before it gives -1; a decoding failure in
  the middle of the stream is such an end.
- The file backend, `write_bytes`, `write_chars`, `flush_chars`, the
  fast paths of `write_char` and the `Stream` object constructors are not
  modelled; they call the C library or mirror the read side.

- Lexer: string literals (`scan_string`, which calls the escape translation
  modelled here) and the fraction and exponent of floating-point literals
  are not scanned; the scanner reports `Unscanned` where they start. Source
  positions (line and column), the stream buffer and the error jump are not
  modelled: the input is a string and an error is a value.
- Lexer.ScanNumber: the source parses the digits in chunks of its buffer
  and combines them with integer-object arithmetic, which reports "the
  integer constant is too large" when it fails; the model reads the whole
  run of digits as its exact value and has no such error.
- Parser: statements, blocks, tuple, array and map literals, call arguments
  beyond their node, and error positions are not modelled; the operand
  nodes are given. `parse_expression` is modelled for the token kinds the
  builder handles. A send node holding itself cannot be a finite value, so
  `CombineAsWritten` records that self-reference as the marker `SelfRef`;
  the rest of the model builds sends with the corrected target.
- Codegen: the walk over the AST and the emission of instructions are not
  modelled; the model covers the frame scope's register bookkeeping, the
  variable and loop scopes and the scope stack. Variable names are strings
  rather than symbol objects, and the growth of the C arrays is not visible.
- Codegen.FrameScope.FreeRegs: the binary search is modelled with the
  corrected back test (see Findings); `Codegen.PlaceAsWritten` keeps the
  test as written.
- CodegenScopes: scope objects are named by their creation number, and
  `scope_stack_fini` and the GC visitor are covered only by the invariant
  that every object created is owned once, on the stack or on one free list.
- AsmText: the lines are given as `zis_stream_obj_read_line` returns them;
  `sscanf`'s `%i` is modelled without the `int32_t` range check, and the
  pseudo-operation operands are passed on as text, not parsed.
- Clopts: the help printing and its word wrapping are modelled only for the
  narrow case where the text is printed as it is; the Windows branch of
  the path-name function and the messages written to the error stream are
  not modelled. The handlers are functions of the calls made before them.
- Repl: the `F_input`, `F_read` and `F_eval` natives and the evaluation they
  start are not modelled; only the end-of-source test, `_memstr` and the
  expression-kind test are. The AST kinds other than the expression kinds
  and the module node are one `Statement` kind.
- Cloc: argument parsing, printing and `dump_stats` (including its division
  by the total size, which is zero when every file is empty) are not
  modelled; `fnmatch`'s '?' and '[' are not modelled; the file's lines and
  its size are parameters instead of file reads and `stat`; a path is given
  split into its components.
- Cloc.ScanFile: the counting loop is the corrected one (see Findings);
  `Cloc.Step` with `asWritten` set keeps the loop as written.
- CDocStr: the Markdown output beyond the escaping of titles, reading the
  files, and the error's message formatting are not modelled;
  `capitalize` is modelled on ASCII letters only; the doc-strings a file
  yields before an error are not kept, since the error ends the run.

## Findings

| source | as written | input that shows it | evidently intended | confidence | as-written member | corrected member |
|---|---|---|---|---|---|---|
| core/fsutil.c:284-287 | with a trailing '/', the walk back stops on the last character of the final component, so the parent is cut inside it | "/var/tmp/" gives "/var/tm" | skip the trailing separators, then cut at the '/' before the final component: "/var" | high, not executed | Fsutil.ParentTrailingSepAsWritten | Fsutil.ParentIntendedTrailingSep |
| src/core/object.c:224 | the `?:` binds looser than `==`, so any non-zero valid end yields the empty range | (-1, 2) on length 10 gives an empty range; (2, 1) fails | an empty range exactly when end = begin - 1, failure otherwise | high, not executed | Object.RangeConvertAsWrittenAcceptsReversed | Object.RangeConvertIntendedSpec |
| core/stack.c:128-152 | the guard compares the slots left from the current top with n, so n equal to that count passes and the new top is one past the last slot | 10 slots, top 0, n = 10 | fail when fewer than n slots remain after the top slot | high, not executed | Stack.OverflowsAsWrittenMissesLastSlot | Stack.NoOverflowInBounds |
| core/arrayobj.c:198-214 | growing full storage for an insert allocates slots without initialising them and writes only the first length + 1 | a full array of 4 elements, insert at 1 (index 0): slots 5 to 7 of the new storage are never written | fill the unused slots with the filler, as append, pop, remove and `new2` do | high, not executed | ArrayObj.GrownForInsertAsWrittenLeavesUnwritten | ArrayObj.GrowForInsert |
| core/intobj.c:283-284 | without the GNU overflow builtins, the carry is added to the cell before the overflow test, so the test compares the carry with the room left after the addition | a = b = [0xffffffff]: the row carry 0xfffffffe goes into an empty cell and the test reports an overflow and panics | test `carry > CELL_MAX - y` before adding, so a carry into an empty cell never panics | high, not executed | BigInt.MulCarryCheckAsWrittenMisfires | BigInt.MulRow |
| core/intobj.c:1478 | two integer objects are compared with `bigint_cmp` on their magnitudes, whatever their signs | -2^64 against 2^64 gives 0; -2^65 against 2^64 gives 1 | compare signs first and negate the magnitude order when both are negative | high, not executed | IntObj.CompareAsWritten | IntObj.Compare |
| core/intobj.c:1490-1492 | two integer objects are equal when their cells are, whatever their signs | -2^64 equals 2^64 | also require equal signs | high, not executed | IntObj.SignIgnoredExample | IntObj.Equals |
| core/intobj.c:574 | the loop over the lower cells starts at `cell_count - 2` and counts up, so with two or more cells it reaches the non-zero top cell and answers false | 2^32 (cells [0, 1]) is not reported as a power of two | count down to cell 0 | high, not executed | IntObj.IsPow2AsWrittenMissesExample | IntObj.IsPow2 |
| core/mapobj.c:191 | deleting the head node of a bucket stores its successor at index `key_hash` of the bucket array instead of `key_hash % count` | two buckets, one node with hash 3: the store lands outside the array, which has 2 slots | store at the bucket index `key_hash % count`, as `put_node` does | high, not executed | MapObj.DelHeadAsWrittenOutOfBounds | MapObj.DelNode |
| core/symbolobj.c:43-47 | with no data bytes the area is empty, so zeroing its last word writes the word before it, the `hash` field | `Symbol.for("")` (or a quoted empty identifier): the new symbol has hash 0, the lookup of the empty bytes compares against hash 0x3380862c and never finds it, so each call registers another empty symbol | zero the last word only when the area is not empty | high, not executed | SymbolObj.EmptySymbolHashAsWritten | SymbolObj.Registry.Get |
| core/stringobj.c:164-165 | when every decoded code point is below 0x80 the input bytes are copied, but the decoder accepts overlong and malformed sequences, so the bytes can differ from the characters | the bytes C0 80: one U+0000 is decoded, the string holds 0xC0 | copy the bytes only when there are as many bytes as characters, otherwise store the decoded characters | high, not executed | StringObj.OverlongStoredAsWritten | StringObj.New |
| core/stringobj.c:698 | the hash reads `char_type * char_count` bytes, and the enumerator is one less than the char size, so a C1 string hashes no bytes | "a" and "b", like every pair of ASCII strings, get the same hash | hash the `char_count * char_size` data bytes | high, not executed | StringObj.AsciiHashCollision | StringObj.HashInputDistinguishes |
| core/objmem.c:73-74 | with no old-space limit given, the limit is 1 GiB even when the old chunk is larger, while a given limit is raised to one chunk | old chunk 2 GiB, limit 0: the limit is 1 GiB, below one chunk | raise the default limit to one chunk as well | medium, not executed | ObjMem.DefaultOldLimitBelowChunk | ObjMem.ConfigConvCorrected |
| core/moduleobj.c:151 | the variable loop runs while `i < def_type_cnt`, so it binds as many variables as there are types | one variable "x" and no type: "x" is not bound; more types than variables read past the terminator | loop over the variable count, binding every variable | high, not executed | ModuleObj.VariableLoopSkipsVariables | ModuleObj.LoadDefinesVariables |
| core/streamobj.c:433 | a character of two or more bytes is copied to the start of the buffer, not to index `i`, though `i` advances by its length | "a", 'é', '\n' with size 8: the buffer holds C3 A9, a stale byte, 0A | copy to `buffer + i` | high, not executed | StreamObj.LineAsWrittenOverwritesFront | StreamObj.ReadLine |
| core/streamobj.c:422-424 | a character whose bit 7 is clear is stored as one byte cast to `char`, although it may be above 0x7F | U+0100, or any CJK character such as U+4E00, is stored as its low byte | store only characters below 0x80 as one byte and encode the others | high, not executed | StreamObj.LineAsWrittenTruncatesWide | StreamObj.ReadLine |
| core/intobj.c:471 | the bit count within the last kept cell is `n - n / 32` instead of `n % 32`, so the mask keeps too many bits (and, for n of 34 and more, shifts by more than the cell width) | 2^32 (cells [0, 1]) truncated to 32 bits stays 2^32 | keep n % 32 bits of cell n / 32, so the result is the value modulo 2^n | high, not executed | BigInt.TruncAsWrittenKeepsHighCell | BigInt.TruncValue |
| core/assembly.c:261 | the jump table's storage is sized `new_cap * sizeof(struct jumpinstr_table)` (a pointer and two `size_t`s, 12 bytes on a 32-bit target) although each entry takes 16 bytes | a 32-bit target, four jumps appended: the fourth entry is written at bytes 48 to 63 of a 48-byte allocation | size the storage `new_cap * sizeof(struct jumpinstr_table_entry)` | high, not executed | Assembly.LastEntryFits | Assembly.StorageBytes |
| core/lexer.c:398 | the running value of a `\u{...}` escape is bounded by 0x10fff, one hex digit short of the last code point, and an empty pair of braces is accepted as code 0 | "u{1f600}" is rejected; "u{}" gives U+0000 | bound by 0x10ffff and require at least one digit | high, not executed | Lexer.AsWrittenRejectsAstral | Lexer.CodePointRoundTrip |
| core/lexer.c:702-705 | after "..", one more character is consumed before the token ends | "..x" gives the token ".." spanning three characters, and the "x" is lost | end the token after the two dots | high, not executed | Lexer.AsWrittenDotDotSwallows | Lexer.OperatorSpelled |
| core/lexer.c:645-648 | a comment is skipped together with the line break that ends it, so the line break does not end the statement | "#" then a line break then "(" continues the statement with "(" | let the line break after a comment end the statement | medium, not executed | Lexer.AsWrittenCommentJoinsLines | Lexer.CommentEndsStatement |
| start/clopts.c:82 | `s[2]` is read before `s[1]` is checked, so for a lone "-" it is read one past the terminating NUL | the argument "-" | read `s[2]` only when `s[1]` is not NUL | high, not executed | Clopts.LoneDashReadsPastEnd | Clopts.Head |
| core/parser.c:441-442 | finishing an expression with an open '(' reduces the '(' entry with an operand and reaches `zis_unreachable()` | "(1" at the end of an expression | report the unclosed parenthesis | high, not executed | Parser.AsWrittenUnclosedParen | Parser.FinishFixed |
| core/parser.c:418 | the `:` case stores the send node itself as its target, and the popped target node is used only for the source positions | `a:m()` and `b:m()` give equal send nodes | store the popped target node as the send's target | high, not executed | Parser.AsWrittenSendDropsTarget | Parser.SendKeepsTarget |
| core/codegen.c:251 | the test for inserting at the back is `start > last.end`, so a block starting exactly at the last range's end falls to the binary search, which reads past the list | registers 1 to 4 allocated one by one, then 2 freed, then 3 freed | test `start >= last.end` | high, not executed | Codegen.PlaceAsWrittenReadsPastEnd | Codegen.FrameScope.InsertionPoint |
| core/codegen.c:192 | after splitting a free range the assertion demands two registers left, `start + 1 < end`, though one is enough | allocate 3, then 1, free the 3, allocate 2: one register is left | assert `start < end` | high, not executed | Codegen.SplitCheckRejectsOneLeft | Codegen.AllocateTakes |
| tools/cloc.py:134-136 | for a measure of 5 or 6 the comment is counted only when the measure is 1, which it never is there | a line `/* note */` outside a block is not counted as a comment | count the line when the measure is 5 | high, not executed | Cloc.OneLineCommentMissed | Cloc.OneLineCommentCounted |
