/**
 * Symbols and the symbol registry of core/symbolobj.c.
 *
 * A symbol object keeps its bytes in a data area whose length is the
 * requested length rounded up to a whole number of pointer-sized words;
 * the bytes after the data are zero, and the data size is read back as the
 * offset of the first zero byte of the last word.  The registry is a
 * chained hash set of symbols, keyed by their bytes: its buckets are the
 * bucket lists of `MapObj` (head first), whose nodes carry the symbol's
 * bytes as the key, the symbol object as the value and its `hash` field as
 * the hash.
 */
module SymbolObj {
  import opened Wrappers
  import opened Words
  import Algorithm
  import SmallInt
  import FuncObj
  import opened MapObj

  /* ----- symbol data ----------------------------------------------------- */

  /**
   * The data area of a symbol of n bytes: the allocator rounds
   * `SYM_OBJ_BYTES_FIXED_SIZE + n` up to a multiple of the pointer size, and
   * the fixed part (three words) is already such a multiple.
   */
  function AreaSize(w: Width, n: nat): (d: nat)
    ensures d % FuncObj.PtrBytes(w) == 0 && n <= d < n + FuncObj.PtrBytes(w)
  {
    var p := FuncObj.PtrBytes(w);
    if n % p == 0 then n else n + (p - n % p)
  }

  /** The data area `zis_symbol_obj_new` fills: the last word zeroed, then the bytes copied over it. */
  function NewArea(w: Width, s: seq<bv8>): (a: seq<bv8>)
    ensures |a| == AreaSize(w, |s|) && a[..|s|] == s
    ensures forall i :: |s| <= i < |a| ==> a[i] == 0
  {
    s + seq(AreaSize(w, |s|) - |s|, _ => 0 as bv8)
  }

  /** The first zero byte of `a` at or after `from`. */
  function FirstZero(a: seq<bv8>, from: nat): (r: Option<nat>)
    requires from <= |a|
    ensures r.Some? ==> from <= r.value < |a| && a[r.value] == 0
    ensures r.Some? ==> forall i :: from <= i < r.value ==> a[i] != 0
    ensures r.None? ==> forall i :: from <= i < |a| ==> a[i] != 0
    decreases |a| - from
  {
    if from == |a| then None
    else if a[from] == 0 then Some(from)
    else FirstZero(a, from + 1)
  }

  /**
   * `zis_symbol_obj_data_size`: no bytes for an empty area; otherwise the
   * offset of the first zero byte of the last word, or the whole area.
   */
  function DataSize(w: Width, area: seq<bv8>): (n: nat)
    requires |area| % FuncObj.PtrBytes(w) == 0
    ensures n <= |area|
  {
    if |area| == 0 then 0
    else match FirstZero(area, |area| - FuncObj.PtrBytes(w))
      case Some(i) => i
      case None => |area|
  }

  /**
   * The bytes whose data size reads back as their length: none of them is
   * zero within the last word of the area (the assertion closing
   * `zis_symbol_obj_new`).
   */
  predicate Internable(w: Width, s: seq<bv8>) {
    forall i :: 0 <= i < |s| && AreaSize(w, |s|) - FuncObj.PtrBytes(w) <= i ==> s[i] != 0
  }

  /** The data size of a new symbol is its length exactly when no zero byte lies in its last word. */
  lemma NewDataSize(w: Width, s: seq<bv8>)
    ensures DataSize(w, NewArea(w, s)) <= |s|
    ensures DataSize(w, NewArea(w, s)) == |s| <==> Internable(w, s)
  {
    if |s| > 0 {
      if Internable(w, s) {
        InternableSize(w, s);
      } else {
        NotInternableSize(w, s);
      }
    }
  }

  lemma InternableSize(w: Width, s: seq<bv8>)
    requires |s| > 0 && Internable(w, s)
    ensures DataSize(w, NewArea(w, s)) == |s|
  {
    var a := NewArea(w, s);
    var last := |a| - FuncObj.PtrBytes(w);
    forall i | last <= i < |s|
      ensures a[i] != 0
    {
      assert a[i] == s[i];
    }
    FirstZeroAt(a, last, |s|);
  }

  lemma NotInternableSize(w: Width, s: seq<bv8>)
    requires |s| > 0 && !Internable(w, s)
    ensures DataSize(w, NewArea(w, s)) < |s|
  {
    var a := NewArea(w, s);
    var last := |a| - FuncObj.PtrBytes(w);
    var i :| 0 <= i < |s| && last <= i && s[i] == 0;
    assert a[i] == 0;
    FirstZeroBelow(a, last, i);
  }

  /** The first zero byte from `from` is at k when the bytes before k are not zero and byte k is (or k is the end). */
  lemma FirstZeroAt(a: seq<bv8>, from: nat, k: nat)
    requires from <= k <= |a| && (forall i :: from <= i < k ==> a[i] != 0) && (k < |a| ==> a[k] == 0)
    ensures FirstZero(a, from) == if k < |a| then Some(k) else None
  {
  }

  lemma FirstZeroBelow(a: seq<bv8>, from: nat, i: nat)
    requires from <= i < |a| && a[i] == 0
    ensures FirstZero(a, from).Some? && FirstZero(a, from).value <= i
  {
  }

  /* ----- symbol objects -------------------------------------------------- */

  /** `struct zis_symbol_obj`: the data area and the hash of the bytes. */
  class Symbol {
    const area: seq<bv8>
    const hash: nat

    /** `zis_symbol_obj_data` up to `zis_symbol_obj_data_size`. */
    function Data(w: Width): seq<bv8>
      requires |area| % FuncObj.PtrBytes(w) == 0
    {
      area[..DataSize(w, area)]
    }

    /** `zis_symbol_obj_new`: the hash of the bytes, and a data area reading back as the bytes. */
    constructor (w: Width, s: seq<bv8>)
      requires |s| < 0x8000_0000 && Internable(w, s)
      ensures area == NewArea(w, s) && hash == Algorithm.HashBytes(w, s)
      ensures Data(w) == s
    {
      area := NewArea(w, s);
      hash := Algorithm.HashBytes(w, s);
      new;
      NewDataSize(w, s);
    }
  }

  const NoBytes: seq<bv8> := []

  /**
   * The `hash` field `zis_symbol_obj_new` leaves as written: with no data
   * bytes the area is empty, and zeroing "the last word of the area" writes
   * the word just before it, which is the `hash` field.
   */
  function NewHashAsWritten(w: Width, s: seq<bv8>): nat
    requires |s| < 0x8000_0000
  {
    if |s| == 0 then 0 else Algorithm.HashBytes(w, s)
  }

  /**
   * The empty symbol as written gets hash 0, while its bytes hash to
   * 0x3380862c; a lookup of the empty bytes compares hashes first, so it
   * never matches that symbol.
   */
  lemma EmptySymbolHashAsWritten(w: Width)
    ensures NewHashAsWritten(w, NoBytes) == 0 && Algorithm.HashBytes(w, NoBytes) == 0x3380862c
    ensures !Matches(Node(NoBytes, 0, NewHashAsWritten(w, NoBytes)), NoBytes, Algorithm.HashBytes(w, NoBytes))
  {
    var e := NoBytes;
    assert Algorithm.BodyHash(e, Algorithm.HashSeed, 0) == Algorithm.HashSeed;
    assert Algorithm.TailMix(Algorithm.HashSeed, e) == Algorithm.HashSeed;
    assert Algorithm.LenWord(0) == 0;
    assert Algorithm.HashSeed ^ 0 == Algorithm.HashSeed;
    assert Algorithm.Fmix(0x5d9ee90) == 0x3380862c;
    assert (0x3380862c as bv32) & 0x3fff_ffff == 0x3380862c;
  }

  /* ----- Symbol <=> ------------------------------------------------------ */

  /**
   * `memcmp` of the first n bytes: the difference of the first differing
   * pair of bytes, 0 when there is none.
   */
  function MemCmp(a: seq<bv8>, b: seq<bv8>, n: nat): int
    requires n <= |a| && n <= |b|
  {
    if n == 0 then 0
    else if a[0] != b[0] then a[0] as int - b[0] as int
    else MemCmp(a[1..], b[1..], n - 1)
  }

  /** The sign of an integer. */
  function Sign(x: int): int {
    if x < 0 then -1 else if x > 0 then 1 else 0
  }

  /** Bytewise order, a proper prefix first: -1, 0 or 1. */
  function Lex(a: seq<bv8>, b: seq<bv8>): (r: int)
    ensures -1 <= r <= 1
  {
    if |a| == 0 && |b| == 0 then 0
    else if |a| == 0 then -1
    else if |b| == 0 then 1
    else if a[0] < b[0] then -1
    else if a[0] > b[0] then 1
    else Lex(a[1..], b[1..])
  }

  /** a is a proper prefix of b and the byte of b after it is zero. */
  predicate ZeroAfter(a: seq<bv8>, b: seq<bv8>) {
    |a| < |b| && b[..|a|] == a && b[|a|] == 0
  }

  /**
   * The comparison of two different symbols' data: `memcmp` over the
   * shorter length, then the byte after a common prefix, negated when the
   * left operand is the shorter.
   */
  function CmpData(a: seq<bv8>, b: seq<bv8>): int {
    if |a| <= |b| then
      var r := MemCmp(a, b, |a|);
      if r == 0 && |a| != |b| then -(b[|a|] as int) else r
    else
      var r := MemCmp(a, b, |b|);
      if r == 0 then a[|b|] as int else r
  }

  lemma {:induction false} MemCmpOrder(a: seq<bv8>, b: seq<bv8>, n: nat)
    requires n <= |a| && n <= |b|
    ensures MemCmp(a, b, n) == 0 <==> a[..n] == b[..n]
    ensures MemCmp(a, b, n) != 0 ==> Sign(MemCmp(a, b, n)) == Lex(a, b)
    ensures -255 <= MemCmp(a, b, n) <= 255
  {
    if n > 0 && a[0] == b[0] {
      MemCmpOrder(a[1..], b[1..], n - 1);
      assert a[..n] == [a[0]] + a[1..][..n - 1];
      assert b[..n] == [b[0]] + b[1..][..n - 1];
    }
  }

  /** A common prefix of length n leaves the order to what follows it. */
  lemma {:induction false} LexAfterPrefix(a: seq<bv8>, b: seq<bv8>, n: nat)
    requires n <= |a| && n <= |b| && a[..n] == b[..n]
    ensures Lex(a, b) == Lex(a[n..], b[n..])
  {
    if n > 0 {
      assert a[0] == a[..n][0] && b[0] == b[..n][0];
      assert a[1..][..n - 1] == a[..n][1..] && b[1..][..n - 1] == b[..n][1..];
      LexAfterPrefix(a[1..], b[1..], n - 1);
      assert a[1..][n - 1..] == a[n..] && b[1..][n - 1..] == b[n..];
    }
  }

  /**
   * The data comparison is 0 exactly for equal data or a proper prefix
   * followed by a zero byte; otherwise its sign is the bytewise order.
   */
  lemma CmpDataOrder(a: seq<bv8>, b: seq<bv8>)
    ensures CmpData(a, b) == 0 <==> a == b || ZeroAfter(a, b) || ZeroAfter(b, a)
    ensures CmpData(a, b) != 0 ==> Sign(CmpData(a, b)) == Lex(a, b)
    ensures -255 <= CmpData(a, b) <= 255
  {
    var n := if |a| <= |b| then |a| else |b|;
    MemCmpOrder(a, b, n);
    if a[..n] == b[..n] {
      LexAfterPrefix(a, b, n);
      if |a| < |b| {
        assert a[..n] == a;
        assert a[n..] == [] && b[n..][0] == b[n];
      } else if |a| > |b| {
        assert b[..n] == b;
        assert b[n..] == [] && a[n..][0] == a[n];
      } else {
        assert a == a[..n] && b == b[..n];
      }
    } else {
      assert a != b;
      if ZeroAfter(a, b) {
        assert a[..n] == b[..|a|][..n];
      }
      if ZeroAfter(b, a) {
        assert b[..n] == a[..|b|][..n];
      }
    }
  }

  /** Division truncating toward zero, as C's `/`. */
  function TruncDiv(x: int, d: nat): int
    requires d > 0
  {
    if x >= 0 then x / d else -((-x) / d)
  }

  /**
   * Where `int` is wider than a small int (32-bit words), a result outside
   * the small-int range is divided by 4.
   */
  function FitSmall(w: Width, r: int): (f: int)
    requires -0x8000_0000 <= r < 0x8000_0000
    ensures SmallInt.InRange(w, f) && Sign(f) == Sign(r)
  {
    if w == 32 && !SmallInt.InRange(w, r) then TruncDiv(r, 4) else r
  }

  /** The right operand of `<=>`: a symbol or any other object. */
  datatype Operand = SymbolArg(sym: Symbol) | OtherArg

  /** The exception `<=>` throws for a right operand that is not a symbol. */
  datatype Unsupported = UnsupportedOperation

  /**
   * `Symbol:'<=>'`: 0 for the same object, an error for a non-symbol, and
   * otherwise the data comparison brought into small-int range.
   */
  function Compare(w: Width, lhs: Symbol, rhs: Operand): (r: Result<int, Unsupported>)
    requires |lhs.area| % FuncObj.PtrBytes(w) == 0
    requires rhs.SymbolArg? ==> |rhs.sym.area| % FuncObj.PtrBytes(w) == 0
    ensures rhs.OtherArg? <==> r.Err?
    ensures r.Ok? ==> SmallInt.InRange(w, r.value)
    ensures rhs == SymbolArg(lhs) ==> r == Ok(0)
    ensures rhs.SymbolArg? && rhs.sym != lhs ==>
              var a, b := lhs.Data(w), rhs.sym.Data(w);
              (r.value == 0 <==> a == b || ZeroAfter(a, b) || ZeroAfter(b, a)) &&
              (r.value != 0 ==> Sign(r.value) == Lex(a, b))
  {
    if rhs == SymbolArg(lhs) then Ok(0)
    else if rhs.OtherArg? then Err(UnsupportedOperation)
    else
      var a, b := lhs.Data(w), rhs.sym.Data(w);
      CmpDataOrder(a, b);
      Ok(FitSmall(w, CmpData(a, b)))
  }

  /* ----- the registry ---------------------------------------------------- */

  /** `SYM_REG_LOAD_FACTOR`. */
  const LoadFactor: real := 0.9

  /** `SYM_REG_INIT_CAPACITY`. */
  const InitCapacity: nat := 500

  /** The hash of a symbol's bytes (`zis_hash_bytes`, whose length is an `int`). */
  function HashKey(w: Width): seq<bv8> -> Option<nat> {
    s => if |s| < 0x8000_0000 then Some(Algorithm.HashBytes(w, s)) else None
  }

  type Entry = Node<seq<bv8>, Symbol>

  /** A registry node is a symbol whose data are the node's bytes and whose `hash` is the node's hash. */
  ghost predicate Fits(w: Width, x: Entry) {
    Internable(w, x.key) && x.value.area == NewArea(w, x.key) && x.value.hash == x.keyHash
  }

  ghost predicate Consistent(w: Width, bs: seq<Bucket<seq<bv8>, Symbol>>) {
    forall b, j :: 0 <= b < |bs| && 0 <= j < |bs[b]| ==> Fits(w, bs[b][j])
  }

  lemma ConsistentPut(w: Width, bs: seq<Bucket<seq<bv8>, Symbol>>, x: Entry)
    requires |bs| > 0 && Consistent(w, bs) && Fits(w, x)
    ensures Consistent(w, Put(bs, x))
  {
    var nb := Put(bs, x);
    var b := x.keyHash % |bs|;
    forall c, j | 0 <= c < |nb| && 0 <= j < |nb[c]|
      ensures Fits(w, nb[c][j])
    {
      if c == b && j > 0 {
        assert nb[c][j] == bs[c][j - 1];
      }
    }
  }

  lemma {:induction false} ConsistentPutAll(w: Width, bs: seq<Bucket<seq<bv8>, Symbol>>, nodes: seq<Entry>)
    requires |bs| > 0 && Consistent(w, bs)
    requires forall i :: 0 <= i < |nodes| ==> Fits(w, nodes[i])
    ensures Consistent(w, PutAll(bs, nodes))
    decreases |nodes|
  {
    if |nodes| > 0 {
      ConsistentPutAll(w, bs, nodes[..|nodes| - 1]);
      ConsistentPut(w, PutAll(bs, nodes[..|nodes| - 1]), nodes[|nodes| - 1]);
    }
  }

  lemma ConsistentFlat(w: Width, bs: seq<Bucket<seq<bv8>, Symbol>>)
    requires Consistent(w, bs)
    ensures forall i :: 0 <= i < |Flat(bs)| ==> Fits(w, Flat(bs)[i])
  {
    forall i | 0 <= i < |Flat(bs)|
      ensures Fits(w, Flat(bs)[i])
    {
      FlatFrom(bs, i);
    }
  }

  /** Rehashing into n buckets keeps every node a fitting symbol. */
  lemma RehashConsistent(w: Width, bs: seq<Bucket<seq<bv8>, Symbol>>, n: nat)
    requires Consistent(w, bs) && n > 0
    ensures Consistent(w, PutAll(EmptyBuckets(n), Flat(bs)))
  {
    ConsistentFlat(w, bs);
    ConsistentPutAll(w, EmptyBuckets(n), Flat(bs));
  }

  /** The comparison `symbol_registry_find` makes with one node. */
  predicate SameSymbol(w: Width, sym: Symbol, s: seq<bv8>, h: nat)
    requires |sym.area| % FuncObj.PtrBytes(w) == 0
  {
    sym.hash == h && DataSize(w, sym.area) == |s| && sym.area[..|s|] == s
  }

  /** For a fitting node the hash, size and byte comparison is the node's key and hash match. */
  lemma SameSymbolMatches(w: Width, x: Entry, s: seq<bv8>, h: nat)
    requires Fits(w, x)
    ensures |x.value.area| % FuncObj.PtrBytes(w) == 0
    ensures SameSymbol(w, x.value, s, h) <==> Matches(x, s, h)
  {
    NewDataSize(w, x.key);
  }

  /** The loop of `symbol_registry_find` over one bucket. */
  method FindSymbol(w: Width, bucket: Bucket<seq<bv8>, Symbol>, s: seq<bv8>, h: nat) returns (r: Option<nat>)
    requires forall j :: 0 <= j < |bucket| ==> Fits(w, bucket[j])
    ensures r == FindIn(bucket, s, h)
  {
    var j := 0;
    while j < |bucket|
      invariant j <= |bucket|
      invariant forall i :: 0 <= i < j ==> !Matches(bucket[i], s, h)
    {
      var sym := bucket[j].value;
      SameSymbolMatches(w, bucket[j], s, h);
      if sym.hash == h && DataSize(w, sym.area) == |s| && sym.area[..|s|] == s {
        return Some(j);
      }
      j := j + 1;
    }
    return None;
  }

  /** Two matching nodes at different positions count twice. */
  lemma {:induction false} CountTwo<K, V>(nodes: seq<Node<K, V>>, i: nat, j: nat, k: K, h: nat)
    requires i < j < |nodes| && Matches(nodes[i], k, h) && Matches(nodes[j], k, h)
    ensures Count(nodes, k, h) >= 2
  {
    if i > 0 {
      CountTwo(nodes[1..], i - 1, j - 1, k, h);
    } else {
      CountPositive(nodes[1..], j - 1, k, h);
    }
  }

  lemma {:induction false} CountPositive<K, V>(nodes: seq<Node<K, V>>, j: nat, k: K, h: nat)
    requires j < |nodes| && Matches(nodes[j], k, h)
    ensures Count(nodes, k, h) >= 1
  {
    if j > 0 {
      CountPositive(nodes[1..], j - 1, k, h);
    }
  }

  /** A symbol object holding a specific value is unique: two nodes with the same bytes are one node. */
  lemma OneNodePerData(w: Width, bs: seq<Bucket<seq<bv8>, Symbol>>, b1: nat, j1: nat, b2: nat, j2: nat)
    requires ValidBuckets(bs, HashKey(w))
    requires b1 < |bs| && j1 < |bs[b1]| && b2 < |bs| && j2 < |bs[b2]|
    requires bs[b1][j1].key == bs[b2][j2].key
    ensures b1 == b2 && j1 == j2
  {
    var x, y := bs[b1][j1], bs[b2][j2];
    assert HashKey(w)(x.key) == Some(x.keyHash) && HashKey(w)(y.key) == Some(y.keyHash);
    assert x.keyHash == y.keyHash;
    var k, h := x.key, x.keyHash;
    assert b1 == h % |bs| == b2;
    assert CountIn(bs, k, h) <= 1;
    if j1 < j2 {
      CountTwo(bs[b1], j1, j2, k, h);
    } else if j2 < j1 {
      CountTwo(bs[b1], j2, j1, k, h);
    }
  }

  /** The symbol registered in `bs` for these bytes. */
  function LookupBytes(w: Width, bs: seq<Bucket<seq<bv8>, Symbol>>, s: seq<bv8>): Option<Symbol> {
    if |s| < 0x8000_0000 then Lookup(bs, s, Algorithm.HashBytes(w, s)) else None
  }

  /** Putting a new symbol into valid buckets: the table stays valid and only the new bytes change their lookup. */
  lemma PutNewLookup(w: Width, bs: seq<Bucket<seq<bv8>, Symbol>>, x: Entry)
    requires ValidBuckets(bs, HashKey(w)) && Consistent(w, bs) && |bs| > 0 && Fits(w, x)
    requires |x.key| < 0x8000_0000 && x.keyHash == Algorithm.HashBytes(w, x.key) && Lookup(bs, x.key, x.keyHash).None?
    ensures ValidBuckets(Put(bs, x), HashKey(w)) && Consistent(w, Put(bs, x)) && |Flat(Put(bs, x))| == |Flat(bs)| + 1
    ensures LookupBytes(w, Put(bs, x), x.key) == Some(x.value)
    ensures forall s :: s != x.key ==> LookupBytes(w, Put(bs, x), s) == LookupBytes(w, bs, s)
  {
    assert HashKey(w)(x.key) == Some(x.keyHash);
    InsertKeeps(bs, x, HashKey(w));
    ConsistentPut(w, bs, x);
  }

  /** `struct zis_symbol_registry`: the buckets, the symbol count and the count that triggers growth. */
  class Registry {
    const w: Width
    var buckets: seq<Bucket<seq<bv8>, Symbol>>
    var symbolCount: nat
    var threshold: nat

    ghost predicate Valid()
      reads this
    {
      ValidBuckets(buckets, HashKey(w)) && Consistent(w, buckets) &&
      |buckets| > 0 && threshold > 0 && symbolCount == |Flat(buckets)|
    }

    /** The symbol registered for these bytes. */
    function At(s: seq<bv8>): Option<Symbol>
      reads this
    {
      LookupBytes(w, buckets, s)
    }

    /** `zis_symbol_registry_create`: an empty registry resized for 500 symbols. */
    constructor (w: Width)
      ensures Valid() && this.w == w
      ensures |buckets| == MinBuckets(LoadFactor, InitCapacity) && threshold == InitCapacity
      ensures symbolCount == 0 && forall s :: At(s).None?
    {
      this.w := w;
      buckets := EmptyBuckets(MinBuckets(LoadFactor, InitCapacity));
      symbolCount := 0;
      threshold := InitCapacity;
      new;
      FlatEmpty(buckets);
    }

    /**
     * `symbol_registry_resize`: every symbol, bucket by bucket and head
     * first, is put into ⌈max / 0.9⌉ new buckets; the threshold becomes max.
     */
    method Resize(max: nat)
      requires Valid() && max > 0
      modifies this
      ensures Valid() && symbolCount == old(symbolCount)
      ensures buckets == PutAll(EmptyBuckets(MinBuckets(LoadFactor, max)), Flat(old(buckets)))
      ensures |buckets| == MinBuckets(LoadFactor, max) && threshold == max
      ensures forall s :: At(s) == old(At(s))
    {
      var n := MinBuckets(LoadFactor, max);
      var nb := MoveNodes(buckets, n);
      RehashKeeps(buckets, n, HashKey(w));
      RehashConsistent(w, buckets, n);
      buckets := nb;
      threshold := max;
    }

    /** The head insertion of `symbol_registry_add`, counting the new symbol. */
    method PutNew(x: Entry)
      requires Valid() && Fits(w, x) && |x.key| < 0x8000_0000
      requires x.keyHash == Algorithm.HashBytes(w, x.key) && At(x.key).None?
      modifies this
      ensures buckets == Put(old(buckets), x)
      ensures threshold == old(threshold) && symbolCount == old(symbolCount) + 1
      ensures Valid() && At(x.key) == Some(x.value) && forall s :: s != x.key ==> At(s) == old(At(s))
    {
      PutNewLookup(w, buckets, x);
      buckets := Put(buckets, x);
      symbolCount := symbolCount + 1;
    }

    /**
     * `symbol_registry_add`: when the count has reached the threshold and
     * the symbol's bucket is occupied, resize for twice the threshold; then
     * put the symbol at the head of its bucket.
     */
    method Add(sym: Symbol, ghost s: seq<bv8>)
      requires Valid() && |s| < 0x8000_0000 && Internable(w, s)
      requires sym.area == NewArea(w, s) && sym.hash == Algorithm.HashBytes(w, s) && At(s).None?
      modifies this
      ensures Valid() && At(s) == Some(sym) && forall t :: t != s ==> At(t) == old(At(t))
      ensures symbolCount == old(symbolCount) + 1
      ensures old(symbolCount >= threshold && BucketOf(buckets, sym.hash) != []) ==>
                threshold == 2 * old(threshold) && |buckets| == MinBuckets(LoadFactor, 2 * old(threshold))
      ensures !old(symbolCount >= threshold && BucketOf(buckets, sym.hash) != []) ==>
                threshold == old(threshold) && |buckets| == |old(buckets)|
    {
      NewDataSize(w, s);
      var key := sym.area[..DataSize(w, sym.area)];
      assert key == s;
      var b := sym.hash % |buckets|;
      if symbolCount >= threshold && buckets[b] != [] {
        Resize(threshold * 2);
      }
      PutNew(Node(key, sym, sym.hash));
    }

    /** `symbol_registry_find` (and `zis_symbol_registry_find`): the symbol with these bytes, if registered. */
    method Find(s: seq<bv8>) returns (r: Option<Symbol>)
      requires Valid() && |s| < 0x8000_0000
      ensures r == At(s)
    {
      var h := Algorithm.HashBytes(w, s);
      var bucket := buckets[h % |buckets|];
      var i := FindSymbol(w, bucket, s, h);
      if i.None? {
        return None;
      }
      return Some(bucket[i.value].value);
    }

    /**
     * `zis_symbol_registry_get`: the registered symbol for these bytes, or a
     * new one, registered.  A second call with the same bytes returns the
     * same object and changes nothing.
     */
    method Get(s: seq<bv8>) returns (r: Symbol)
      requires Valid() && |s| < 0x8000_0000 && Internable(w, s)
      modifies this
      ensures Valid() && At(s) == Some(r)
      ensures r.area == NewArea(w, s) && r.Data(w) == s
      ensures old(At(s)).Some? ==> r == old(At(s)).value && buckets == old(buckets) && symbolCount == old(symbolCount)
      ensures old(At(s)).None? ==> fresh(r) && symbolCount == old(symbolCount) + 1
      ensures forall t :: t != s ==> At(t) == old(At(t))
    {
      NewDataSize(w, s);
      var found := Find(s);
      if found.Some? {
        var h := Algorithm.HashBytes(w, s);
        var j := FindIn(BucketOf(buckets, h), s, h).value;
        assert Fits(w, buckets[h % |buckets|][j]);
        return found.value;
      }
      r := new Symbol(w, s);
      Add(r, s);
    }

    /**
     * `zis_symbol_registry_get2`: the two byte strings joined (in a stack
     * buffer up to 64 bytes, on the heap beyond), then `get`.
     */
    method Get2(s1: seq<bv8>, s2: seq<bv8>) returns (r: Symbol)
      requires Valid() && |s1 + s2| < 0x8000_0000 && Internable(w, s1 + s2)
      modifies this
      ensures Valid() && At(s1 + s2) == Some(r) && r.area == NewArea(w, s1 + s2)
      ensures old(At(s1 + s2)).Some? ==> r == old(At(s1 + s2)).value && buckets == old(buckets)
      ensures old(At(s1 + s2)).None? ==> fresh(r) && symbolCount == old(symbolCount) + 1
      ensures forall t :: t != s1 + s2 ==> At(t) == old(At(t))
    {
      var buffer := s1 + s2;
      r := Get(buffer);
    }
  }
}
