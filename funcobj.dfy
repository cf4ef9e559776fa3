/**
 * The `Function` object of `src/core/funcobj.c`: its meta data (argument
 * counts and register count), the conversion from a native function
 * definition's meta, and the fields a bytecode function is built with.
 * Objects the function refers to (symbol and constant tables, the module)
 * are opaque references.
 */
module FuncObj {
  import opened Words
  import opened Wrappers

  /** An opaque object reference. */
  type Ref = nat

  /** `unsigned char` -1: the `no` value of a variadic function. */
  const Variadic: nat := 255

  /**
   * `struct zis_func_obj_meta`: `na` required arguments, `no` optional
   * arguments (or `Variadic` for a rest-arguments tuple) and `nr` registers
   * (REG-0, the arguments and the locals).
   */
  datatype FuncMeta = FuncMeta(na: nat, no: nat, nr: nat)

  predicate ValidMeta(m: FuncMeta) {
    m.na < 256 && m.no < 256 && m.nr < 0x1_0000
  }

  /** The parameter slots after REG-0: the required ones, then the optional ones or the rest tuple. */
  function ParamSlots(m: FuncMeta): nat {
    m.na + (if m.no == Variadic then 1 else m.no)
  }

  /** The register count covers REG-0 and every parameter slot (asserted by `invocation_prepare`). */
  predicate RegistersCoverParams(m: FuncMeta) {
    m.nr >= 1 + ParamSlots(m)
  }

  /**
   * `struct zis_native_func_meta` as the conversion reads it: `na` (unsigned
   * char), `no` (a signed char whose -1 means variadic) and `nl` locals
   * (unsigned short).
   */
  datatype NativeMeta = NativeMeta(na: nat, no: int, nl: nat)

  predicate ValidNativeMeta(d: NativeMeta) {
    d.na < 256 && -128 <= d.no < 128 && d.nl < 0x1_0000
  }

  /**
   * `zis_func_obj_meta_no_abs`, which is not part of this model, taken as
   * the magnitude of `no`.
   */
  function NoAbs(no: int): nat {
    if no < 0 then -no else no
  }

  /**
   * `zis_func_obj_meta_conv`: fails when the arguments do not fit in the
   * locals or when `1 + nl` wraps to 0 in the `unsigned short` field;
   * otherwise `na` and `no` are copied (`no` converted to `unsigned char`)
   * and `nr = 1 + nl`.
   */
  function MetaConv(d: NativeMeta): (r: Option<FuncMeta>)
    requires ValidNativeMeta(d)
  {
    if d.na + NoAbs(d.no) > d.nl then None
    else
      var m := FuncMeta(d.na, d.no % 256, (1 + d.nl) % 0x1_0000);
      if m.nr == 0 then None else Some(m)
  }

  /**
   * The conversion succeeds exactly when the arguments fit in the locals and
   * `nl` is below 65535; the result then has `nr = nl + 1`, the same `na`,
   * and `no = 255` (variadic) exactly for native `no = -1`.
   */
  lemma MetaConvSpec(d: NativeMeta)
    requires ValidNativeMeta(d)
    ensures MetaConv(d).Some? <==> d.na + NoAbs(d.no) <= d.nl < 0xffff
    ensures MetaConv(d).Some? ==>
              var m := MetaConv(d).value;
              ValidMeta(m) && m.na == d.na && m.nr == d.nl + 1 &&
              (m.no == Variadic <==> d.no == -1) && (d.no >= 0 ==> m.no == d.no)
  {
    if d.na + NoAbs(d.no) <= d.nl && d.nl == 0xffff {
      assert (1 + d.nl) % 0x1_0000 == 0;
    }
  }

  /**
   * A converted meta with plain optional arguments or the single variadic
   * marker has registers for REG-0 and every parameter slot, so it meets
   * the assertion `invocation_prepare` makes.
   */
  lemma MetaConvCoversParams(d: NativeMeta)
    requires ValidNativeMeta(d) && d.no >= -1 && MetaConv(d).Some?
    ensures RegistersCoverParams(MetaConv(d).value)
  {
    MetaConvSpec(d);
  }

  /** `sizeof(zis_func_obj_bytecode_word_t)`. */
  const WordBytes: nat := 4

  /** Bytes of a pointer (`sizeof(void *)`). */
  function PtrBytes(w: Width): nat {
    w / 8
  }

  /**
   * `FUN_OBJ_BYTES_FIXED_SIZE`: the BYTES part before the bytecode
   * (`_bytes_size`, `meta` and `native`, with padding): 24 bytes on a 64-bit
   * target and 12 on a 32-bit one.
   */
  function FixedBytes(w: Width): nat {
    if w == 64 then 24 else 12
  }

  /**
   * The `_bytes_size` the allocator records for `n` bytecode words: the
   * requested size rounded up to a multiple of the pointer size.
   */
  function AllocBytesSize(w: Width, n: nat): (r: nat)
    ensures r % PtrBytes(w) == 0
    ensures FixedBytes(w) + WordBytes * n <= r < FixedBytes(w) + WordBytes * n + PtrBytes(w)
  {
    var req := FixedBytes(w) + WordBytes * n;
    var p := PtrBytes(w);
    if req % p == 0 then req else req + (p - req % p)
  }

  /** `zis_func_obj_bytecode_length` for a given `_bytes_size`. */
  function BytecodeLength(w: Width, bytesSize: nat): (n: nat)
    requires bytesSize >= FixedBytes(w)
    ensures FixedBytes(w) + WordBytes * n <= bytesSize < FixedBytes(w) + WordBytes * (n + 1)
  {
    (bytesSize - FixedBytes(w)) / WordBytes
  }

  /**
   * The length read back from a bytecode function is the length it was
   * created with on a 32-bit target, and that length rounded up to an even
   * count on a 64-bit target (the allocator pads the bytes to 8).
   */
  lemma BytecodeLengthOfAlloc(w: Width, n: nat)
    ensures BytecodeLength(w, AllocBytesSize(w, n)) == if w == 64 then n + n % 2 else n
  {
    var r := AllocBytesSize(w, n);
    if w == 64 {
      assert (24 + 4 * n) % 8 == 4 * (n % 2) by {
        ModOfSum(n);
      }
    } else {
      assert (12 + 4 * n) % 4 == 0;
    }
  }

  lemma ModOfSum(n: nat)
    ensures (24 + 4 * n) % 8 == 4 * (n % 2)
  {
    var q := n / 2;
    assert n == 2 * q + n % 2;
    assert 24 + 4 * n == 8 * (3 + q) + 4 * (n % 2);
  }

  /** The `Function` object. */
  class Function {
    var symbols: Ref
    var constants: Ref
    var home: Ref
    var bytesSize: nat
    var meta: FuncMeta
    var native: Option<Ref>
    var bytecode: seq<bv32>

    /**
     * `zis_func_obj_new_bytecode`: the allocation gets room for the code,
     * the resource tables are the shared empty slots, the module is the
     * unnamed module, `native` is NULL and exactly the given words are
     * copied.
     */
    constructor NewBytecode(w: Width, m: FuncMeta, code: seq<bv32>, emptySlots: Ref, unnamedModule: Ref)
      ensures bytesSize == AllocBytesSize(w, |code|)
      ensures symbols == emptySlots && constants == emptySlots && home == unnamedModule
      ensures meta == m && native.None? && bytecode == code
    {
      symbols, constants := emptySlots, emptySlots;
      home := unnamedModule;
      bytesSize := AllocBytesSize(w, |code|);
      meta := m;
      native := None;
      bytecode := code;
    }

    /** `zis_func_obj_set_resources`: only the tables that are given (non-NULL) are replaced. */
    method SetResources(newSymbols: Option<Ref>, newConstants: Option<Ref>)
      modifies this
      ensures symbols == (if newSymbols.Some? then newSymbols.value else old(symbols))
      ensures constants == (if newConstants.Some? then newConstants.value else old(constants))
      ensures home == old(home) && bytesSize == old(bytesSize) && meta == old(meta)
      ensures native == old(native) && bytecode == old(bytecode)
    {
      if newSymbols.Some? {
        symbols := newSymbols.value;
      }
      if newConstants.Some? {
        constants := newConstants.value;
      }
    }
  }
}
