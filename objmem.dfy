/**
 * The memory manager's bookkeeping (core/objmem.c): converting the user's
 * size options into a configuration, the span set of GC roots, the bump
 * allocator of a memory chunk, the big-space object list whose links share
 * a word with a young-reference flag, the per-chunk remembered set of
 * old-to-young references, the size of a new object and how it is
 * initialised, the choice of space for an allocation, and the choice of GC
 * type. The collectors themselves are not part of this model.
 */
module ObjMem {
  import opened Wrappers
  import opened Words
  import Algorithm
  import FuncObj
  import TypeObj
  import Values

  /** `sizeof(void *)`: 4 or 8 bytes. */
  function Ptr(w: Width): (p: nat)
    ensures p == 4 || p == 8
  {
    FuncObj.PtrBytes(w)
  }

  /* ----- Configuration ----- */

  const GiB: nat := 0x4000_0000

  /** `NON_BIG_SPACE_MAX_ALLOC_SIZE`: larger objects go to the big space. */
  function NonBigMax(w: Width): nat { Ptr(w) * 1024 }
  function NewChunkMin(w: Width): nat { Ptr(w) * 4 * 1024 }
  function NewChunkDefault(w: Width): nat { Ptr(w) * 64 * 1024 }
  function OldChunkMin(w: Width): nat { Ptr(w) * 4 * 1024 }
  function OldChunkDefault(w: Width): nat { Ptr(w) * 32 * 1024 }
  const OldLimitDefault: nat := GiB
  function BigThresholdDefault(w: Width): nat { 16 * NonBigMax(w) }
  const BigLimitDefault: nat := GiB

  /** `struct zis_objmem_options`: each size 0 means "use the default". */
  datatype Options = Options(
    newSpaceSize: nat, oldSpaceSizeNew: nat, oldSpaceSizeMax: nat,
    bigSpaceSizeNew: nat, bigSpaceSizeMax: nat)

  /** `struct objmem_config`. */
  datatype Config = Config(
    newChunk: nat, oldChunk: nat, oldLimit: nat, bigThreshold: nat, bigLimit: nat)

  /** The new-space chunk: the default for 0, otherwise half the size, but at least the minimum. */
  function NewChunkSize(w: Width, size: nat): (r: nat)
    ensures r >= NewChunkMin(w)
    ensures size == 0 ==> r == NewChunkDefault(w)
    ensures 0 < size < 2 * NewChunkMin(w) ==> r == NewChunkMin(w)
    ensures size >= 2 * NewChunkMin(w) ==> 2 * r <= size < 2 * r + 2
  {
    if size == 0 then NewChunkDefault(w)
    else if size < NewChunkMin(w) * 2 then NewChunkMin(w)
    else size / 2
  }

  /** The old-space chunk: the default for 0, otherwise the size raised to the minimum. */
  function OldChunkSize(w: Width, size: nat): (r: nat)
    ensures r >= OldChunkMin(w)
    ensures size == 0 ==> r == OldChunkDefault(w)
    ensures size >= OldChunkMin(w) ==> r == size
    ensures 0 < size < OldChunkMin(w) ==> r == OldChunkMin(w)
  {
    if size == 0 then OldChunkDefault(w)
    else if size < OldChunkMin(w) then OldChunkMin(w)
    else size
  }

  /** The old-space limit: 1 GiB for 0, otherwise the size raised to one chunk. */
  function OldLimitSize(size: nat, chunk: nat): (r: nat)
    ensures size == 0 ==> r == OldLimitDefault
    ensures size != 0 ==> r >= chunk && r >= size && (r == size || r == chunk)
  {
    if size == 0 then OldLimitDefault
    else if size < chunk then chunk
    else size
  }

  /**
   * `objmem_config_conv`, as written: every chunk at least its minimum, a
   * given old-space limit raised to one old chunk, but the default limit
   * is not, and a 0 big-space option is its default.
   */
  function ConfigConv(w: Width, o: Options): (c: Config)
    ensures c.newChunk >= NewChunkMin(w) && c.oldChunk >= OldChunkMin(w)
    ensures o.oldSpaceSizeMax != 0 || c.oldChunk <= OldLimitDefault ==> c.oldLimit >= c.oldChunk
    ensures c.bigThreshold > 0 && c.bigLimit > 0
    ensures o.bigSpaceSizeNew != 0 ==> c.bigThreshold == o.bigSpaceSizeNew
    ensures o.bigSpaceSizeMax != 0 ==> c.bigLimit == o.bigSpaceSizeMax
  {
    var oldChunk := OldChunkSize(w, o.oldSpaceSizeNew);
    Config(
      NewChunkSize(w, o.newSpaceSize), oldChunk, OldLimitSize(o.oldSpaceSizeMax, oldChunk),
      if o.bigSpaceSizeNew == 0 then BigThresholdDefault(w) else o.bigSpaceSizeNew,
      if o.bigSpaceSizeMax == 0 then BigLimitDefault else o.bigSpaceSizeMax)
  }

  /**
   * An old chunk over 1 GiB with no old-space limit given leaves the
   * limit, 1 GiB, below a single chunk.
   */
  lemma DefaultOldLimitBelowChunk(w: Width)
    ensures var c := ConfigConv(w, Options(0, 2 * GiB, 0, 0, 0)); c.oldLimit < c.oldChunk
  {
  }

  /** The conversion with the default old-space limit raised to one old chunk, as a given limit is. */
  function ConfigConvCorrected(w: Width, o: Options): (c: Config)
    ensures c.oldLimit >= c.oldChunk && c.oldLimit >= ConfigConv(w, o).oldLimit
    ensures c == ConfigConv(w, o).(oldLimit := c.oldLimit)
    ensures ConfigConv(w, o).oldLimit >= ConfigConv(w, o).oldChunk ==> c == ConfigConv(w, o)
  {
    var c := ConfigConv(w, o);
    if c.oldLimit < c.oldChunk then c.(oldLimit := c.oldChunk) else c
  }

  /** The options a configuration stands for: the whole new space is two chunks. */
  function AsOptions(c: Config): Options {
    Options(2 * c.newChunk, c.oldChunk, c.oldLimit, c.bigThreshold, c.bigLimit)
  }

  /**
   * The corrected conversion is idempotent: the options a configuration
   * stands for convert back to it. (The one as written is not: the example
   * above converts back to a larger limit.)
   */
  lemma ConfigConvFixedPoint(w: Width, o: Options)
    ensures ConfigConvCorrected(w, AsOptions(ConfigConvCorrected(w, o))) == ConfigConvCorrected(w, o)
  {
  }

  /* ----- Memory span set ----- */

  /** `struct mem_span_set_node` without its link: a span address and a function. */
  datatype Span = Span(addr: nat, fn: nat)

  /** No two nodes share an address. */
  predicate Distinct(nodes: seq<Span>) {
    forall i, j :: 0 <= i < j < |nodes| ==> nodes[i].addr != nodes[j].addr
  }

  /** `mem_span_set_find`: the position of the first node with this address. */
  function IndexOf(nodes: seq<Span>, addr: nat): (r: Option<nat>)
    ensures r.Some? ==> r.value < |nodes| && nodes[r.value].addr == addr
    ensures r.Some? ==> forall k :: 0 <= k < r.value ==> nodes[k].addr != addr
    ensures r.None? ==> forall k :: 0 <= k < |nodes| ==> nodes[k].addr != addr
  {
    if |nodes| == 0 then None
    else if nodes[0].addr == addr then Some(0)
    else match IndexOf(nodes[1..], addr)
      case None => None
      case Some(i) => Some(i + 1)
  }

  /** The function recorded for an address. */
  function Lookup(nodes: seq<Span>, addr: nat): Option<nat> {
    match IndexOf(nodes, addr)
    case None => None
    case Some(i) => Some(nodes[i].fn)
  }

  /** The nodes after `mem_span_set_add`: the existing node updated in place, or a new first node. */
  function Added(nodes: seq<Span>, addr: nat, fn: nat): seq<Span> {
    match IndexOf(nodes, addr)
    case Some(i) => nodes[i := Span(addr, fn)]
    case None => [Span(addr, fn)] + nodes
  }

  /** The nodes after `mem_span_set_remove`: that one node unlinked, or nothing changed. */
  function Removed(nodes: seq<Span>, addr: nat): seq<Span> {
    match IndexOf(nodes, addr)
    case Some(i) => nodes[..i] + nodes[i + 1..]
    case None => nodes
  }

  /** Adding keeps addresses distinct, records the function and leaves every other address alone. */
  lemma AddedLookup(nodes: seq<Span>, addr: nat, fn: nat, a: nat)
    requires Distinct(nodes)
    ensures Distinct(Added(nodes, addr, fn))
    ensures Lookup(Added(nodes, addr, fn), a) == if a == addr then Some(fn) else Lookup(nodes, a)
    ensures |Added(nodes, addr, fn)| == |nodes| + (if Lookup(nodes, addr).None? then 1 else 0)
  {
    var r := Added(nodes, addr, fn);
    match IndexOf(nodes, addr)
    case Some(i) =>
      assert r == nodes[i := Span(addr, fn)];
      SameAddresses(nodes, r, a);
    case None =>
      assert r == [Span(addr, fn)] + nodes;
      if a != addr {
        match IndexOf(nodes, a)
        case None =>
        case Some(j) =>
          assert r[j + 1] == nodes[j];
          assert IndexOf(r, a) == Some(j + 1);
      }
  }

  /** Replacing a node's function but not its address moves no address, so look-ups of the others stay. */
  lemma SameAddresses(nodes: seq<Span>, r: seq<Span>, a: nat)
    requires Distinct(nodes) && |r| == |nodes|
    requires forall k :: 0 <= k < |r| ==> r[k].addr == nodes[k].addr
    ensures Distinct(r) && IndexOf(r, a) == IndexOf(nodes, a)
  {
    match IndexOf(nodes, a)
    case None =>
    case Some(j) =>
  }

  /** Removing unlinks exactly the node of that address, and succeeds iff it was there. */
  lemma RemovedLookup(nodes: seq<Span>, addr: nat, a: nat)
    requires Distinct(nodes)
    ensures Distinct(Removed(nodes, addr))
    ensures Lookup(Removed(nodes, addr), a) == if a == addr then None else Lookup(nodes, a)
    ensures |Removed(nodes, addr)| == |nodes| - (if Lookup(nodes, addr).Some? then 1 else 0)
  {
    match IndexOf(nodes, addr)
    case None =>
    case Some(i) =>
      Unlinked(nodes, i, a);
  }

  /** Unlinking node i keeps the other nodes in order, one place earlier after it. */
  lemma Unlinked(nodes: seq<Span>, i: nat, a: nat)
    requires Distinct(nodes) && i < |nodes|
    ensures Distinct(nodes[..i] + nodes[i + 1..])
    ensures nodes[i].addr == a ==> IndexOf(nodes[..i] + nodes[i + 1..], a).None?
    ensures IndexOf(nodes, a).None? ==> IndexOf(nodes[..i] + nodes[i + 1..], a).None?
    ensures IndexOf(nodes, a).Some? && IndexOf(nodes, a).value < i ==>
      IndexOf(nodes[..i] + nodes[i + 1..], a) == IndexOf(nodes, a)
    ensures IndexOf(nodes, a).Some? && IndexOf(nodes, a).value > i ==>
      IndexOf(nodes[..i] + nodes[i + 1..], a) == Some(IndexOf(nodes, a).value - 1)
  {
    var r := nodes[..i] + nodes[i + 1..];
    forall k, m | 0 <= k < m < |r|
      ensures r[k].addr != r[m].addr
    {
      var k' := if k < i then k else k + 1;
      var m' := if m < i then m else m + 1;
      assert r[k] == nodes[k'] && r[m] == nodes[m'] && k' < m';
    }
    UnlinkedIndex(nodes, r, i, a);
  }

  /** Where the address is found in r, the nodes with node i unlinked. */
  lemma UnlinkedIndex(nodes: seq<Span>, r: seq<Span>, i: nat, a: nat)
    requires Distinct(nodes) && i < |nodes| && |r| == |nodes| - 1
    requires forall k :: 0 <= k < i ==> r[k] == nodes[k]
    requires forall k :: i <= k < |r| ==> r[k] == nodes[k + 1]
    ensures nodes[i].addr == a ==> IndexOf(r, a).None?
    ensures IndexOf(nodes, a).None? ==> IndexOf(r, a).None?
    ensures IndexOf(nodes, a).Some? && IndexOf(nodes, a).value < i ==> IndexOf(r, a) == IndexOf(nodes, a)
    ensures IndexOf(nodes, a).Some? && IndexOf(nodes, a).value > i ==> IndexOf(r, a) == Some(IndexOf(nodes, a).value - 1)
  {
    var found := IndexOf(nodes, a);
    if found.None? || found.value == i {
      UnlinkedAbsent(nodes, r, i, a);
    } else {
      UnlinkedFound(nodes, r, i, found.value, a);
    }
  }

  /** An address held by no node but node i is not found once node i is unlinked. */
  lemma UnlinkedAbsent(nodes: seq<Span>, r: seq<Span>, i: nat, a: nat)
    requires i < |nodes| && |r| == |nodes| - 1
    requires forall k :: 0 <= k < i ==> r[k] == nodes[k]
    requires forall k :: i <= k < |r| ==> r[k] == nodes[k + 1]
    requires forall k :: 0 <= k < |nodes| && k != i ==> nodes[k].addr != a
    ensures IndexOf(r, a).None?
  {
    forall k | 0 <= k < |r|
      ensures r[k].addr != a
    {
      if k >= i {
        assert r[k] == nodes[k + 1];
      }
    }
    FoundNone(r, a);
  }

  /** An address first held by node j, not i, is found one place earlier when j is after i. */
  lemma UnlinkedFound(nodes: seq<Span>, r: seq<Span>, i: nat, j: nat, a: nat)
    requires i < |nodes| && |r| == |nodes| - 1 && j < |nodes| && j != i
    requires forall k :: 0 <= k < i ==> r[k] == nodes[k]
    requires forall k :: i <= k < |r| ==> r[k] == nodes[k + 1]
    requires nodes[j].addr == a && forall k :: 0 <= k < j ==> nodes[k].addr != a
    ensures IndexOf(r, a) == Some(if j < i then j else j - 1)
  {
    var j' := if j < i then j else j - 1;
    assert r[j'] == nodes[j];
    forall k | 0 <= k < j'
      ensures r[k].addr != a
    {
      if k >= i {
        assert r[k] == nodes[k + 1];
      }
    }
    FoundAt(r, a, j');
  }

  /** The first node with the address is found. */
  lemma FoundAt(nodes: seq<Span>, a: nat, j: nat)
    requires j < |nodes| && nodes[j].addr == a
    requires forall k :: 0 <= k < j ==> nodes[k].addr != a
    ensures IndexOf(nodes, a) == Some(j)
  {
  }

  /** No node with the address: none is found. */
  lemma FoundNone(nodes: seq<Span>, a: nat)
    requires forall k :: 0 <= k < |nodes| ==> nodes[k].addr != a
    ensures IndexOf(nodes, a).None?
  {
  }

  /** `struct mem_span_set`: its nodes, first node first. */
  class SpanSet {
    var nodes: seq<Span>

    /** `mem_span_set_init`. */
    constructor ()
      ensures nodes == []
    {
      nodes := [];
    }

    /** `mem_span_set_find`: walk the list to the first node with the address. */
    method Find(addr: nat) returns (r: Option<nat>)
      ensures r == IndexOf(nodes, addr)
    {
      var i := 0;
      while i < |nodes|
        invariant i <= |nodes|
        invariant forall k :: 0 <= k < i ==> nodes[k].addr != addr
      {
        if nodes[i].addr == addr {
          return Some(i);
        }
        i := i + 1;
      }
      return None;
    }

    /** `mem_span_set_add`: update the node of the address, or link a new one in front. */
    method Add(addr: nat, fn: nat)
      modifies this
      ensures nodes == Added(old(nodes), addr, fn)
    {
      var found := Find(addr);
      match found
      case Some(i) =>
        nodes := nodes[i := Span(addr, fn)];
      case None =>
        nodes := [Span(addr, fn)] + nodes;
    }

    /** `mem_span_set_remove`: unlink the node of the address; false when there is none. */
    method Remove(addr: nat) returns (ok: bool)
      modifies this
      ensures ok <==> Lookup(old(nodes), addr).Some?
      ensures nodes == Removed(old(nodes), addr)
    {
      var found := Find(addr);
      match found
      case None =>
        return false;
      case Some(i) =>
        nodes := nodes[..i] + nodes[i + 1..];
        return true;
    }
  }

  /* ----- Memory chunk ----- */

  /** `struct mem_chunk`: a block with its three header words, then allocated and free storage. */
  class Chunk {
    const mem: nat
    const end: nat
    var free: nat

    predicate Valid()
      reads this
    {
      mem <= free < end
    }

    /** `mem_chunk_create`: the block is larger than its header. */
    constructor (w: Width, base: nat, size: nat)
      requires size > 3 * Ptr(w)
      ensures mem == base + 3 * Ptr(w) && end == base + size && free == mem
      ensures Valid()
    {
      mem := base + 3 * Ptr(w);
      end := base + size;
      free := base + 3 * Ptr(w);
    }

    /**
     * `mem_chunk_alloc`: bump the free pointer. It fails, changing nothing,
     * iff the new free pointer would reach the end (so the last byte of a
     * chunk is never handed out).
     */
    method Alloc(w: Width, size: nat) returns (r: Option<nat>)
      requires Valid() && size > 0 && size % Ptr(w) == 0
      modifies this
      ensures Valid()
      ensures r.None? <==> old(free) + size >= end
      ensures r.None? ==> free == old(free)
      ensures r.Some? ==> r.value == old(free) && free == old(free) + size
    {
      var ptr := free;
      var newFree := ptr + size;
      if newFree >= end {
        return None;
      }
      free := newFree;
      return Some(ptr);
    }

    /** `mem_chunk_forget`: drop every allocation. */
    method Forget()
      requires Valid()
      modifies this
      ensures Valid() && free == mem
    {
      free := mem;
    }

    /** `mem_chunk_allocated`: the allocated range, from the storage start to the free pointer. */
    function Allocated(): (r: (nat, nat))
      reads this
      requires Valid()
      ensures mem == r.0 <= r.1 == free < end
    {
      (mem, free)
    }
  }

  /* ----- Big space ----- */

  /**
   * `big_space_make_meta_ptr_data`: the next object (8-aligned) with the
   * young-reference flag in bit 2.
   */
  function PackNext(next: nat, young: bool): nat
    requires next % 8 == 0
  {
    next + if young then 4 else 0
  }

  /** `big_space_unpack_meta_ptr_data`: the next object and whether any of the low three bits is set. */
  function UnpackNext(data: nat): (nat, bool) {
    (data - data % 8, data % 8 != 0)
  }

  /**
   * Unpacking recovers both parts, and the packed word still fits a word
   * with its two lowest bits clear (`zis_object_meta_assert_ptr_fits`),
   * where the meta keeps its mark bits.
   */
  lemma PackNextRoundTrip(w: Width, next: nat, young: bool)
    requires next % 8 == 0 && IsUWord(w, next)
    ensures UnpackNext(PackNext(next, young)) == (next, young)
    ensures IsUWord(w, PackNext(next, young)) && PackNext(next, young) % 4 == 0
  {
    UnpackPack(next, young);
    var q := next / 8;
    var m := Modulus(w) / 8;
    assert next == 8 * q && Modulus(w) == 8 * m;
    assert q < m;
    assert PackNext(next, young) == 4 * (2 * q + if young then 1 else 0);
  }

  /** The word-free half of the round trip. */
  lemma UnpackPack(next: nat, young: bool)
    requires next % 8 == 0
    ensures UnpackNext(PackNext(next, young)) == (next, young)
  {
    var d := PackNext(next, young);
    assert d % 8 == if young then 4 else 0;
  }

  /**
   * The list shape a big space keeps: distinct non-null 8-aligned objects,
   * each with a word, the head naming the first, and each word naming the
   * next object (null after the last).
   */
  ghost predicate Linked(objects: seq<nat>, words: map<nat, nat>, head: nat) {
    (forall i :: 0 <= i < |objects| ==> objects[i] != 0 && objects[i] % 8 == 0 && objects[i] in words) &&
    (forall i, j :: 0 <= i < j < |objects| ==> objects[i] != objects[j]) &&
    head == (if |objects| == 0 then 0 else objects[0]) &&
    (forall i :: 0 <= i < |objects| ==> UnpackNext(words[objects[i]]).0 == if i + 1 < |objects| then objects[i + 1] else 0)
  }

  /** Object i's word names the object after it. */
  lemma LinkedNext(objects: seq<nat>, words: map<nat, nat>, head: nat, i: nat)
    requires Linked(objects, words, head) && i < |objects|
    ensures objects[i] in words
    ensures UnpackNext(words[objects[i]]).0 == if i + 1 < |objects| then objects[i + 1] else 0
  {
  }

  /** Linking a new object in front, with the old head as its next, keeps the shape. */
  lemma LinkedPrepend(objects: seq<nat>, words: map<nat, nat>, head: nat, addr: nat)
    requires Linked(objects, words, head) && addr != 0 && addr % 8 == 0 && addr !in words
    ensures head % 8 == 0
    ensures Linked([addr] + objects, words[addr := PackNext(head, false)], addr)
  {
    UnpackPack(head, false);
    var objs := [addr] + objects;
    var ws := words[addr := PackNext(head, false)];
    forall i | 0 <= i < |objs|
      ensures objs[i] != 0 && objs[i] % 8 == 0 && objs[i] in ws
      ensures UnpackNext(ws[objs[i]]).0 == if i + 1 < |objs| then objs[i + 1] else 0
    {
      if i == 0 {
        assert ws[objs[0]] == PackNext(head, false);
      } else {
        assert objs[i] == objects[i - 1];
        LinkedNext(objects, words, head, i - 1);
        assert objs[i] != addr && ws[objs[i]] == words[objects[i - 1]];
        if i + 1 < |objs| {
          assert objs[i + 1] == objects[i];
        }
      }
    }
    forall i, j | 0 <= i < j < |objs|
      ensures objs[i] != objs[j]
    {
      assert objs[j] == objects[j - 1];
      if i > 0 {
        assert objs[i] == objects[i - 1];
      }
    }
    assert Linked(objs, ws, addr);
  }

  /** Changing an object's flag but not its link keeps the shape. */
  lemma LinkedFlag(objects: seq<nat>, words: map<nat, nat>, head: nat, addr: nat, young: bool)
    requires Linked(objects, words, head) && addr in words
    requires UnpackNext(words[addr]).0 % 8 == 0
    ensures Linked(objects, words[addr := PackNext(UnpackNext(words[addr]).0, young)], head)
  {
    UnpackPack(UnpackNext(words[addr]).0, young);
  }

  /** What `big_space_foreach` gives for each object: its address and its young-reference flag. */
  datatype BigObject = BigObject(addr: nat, young: bool)

  /**
   * `struct big_space`: the allocated size, the threshold, the GC_PTR word
   * of the fake head object (the first object's address) and of every
   * object (the next one's address packed with the young flag).
   */
  class BigSpace {
    var allocatedSize: nat
    var threshold: nat
    var head: nat
    var words: map<nat, nat>
    /** The objects in list order, first object first. */
    ghost var objects: seq<nat>

    ghost predicate Valid()
      reads this
    {
      Linked(objects, words, head)
    }

    /** Whether an object is marked as holding a young reference. */
    function Young(addr: nat): bool
      reads this
      requires addr in words
    {
      UnpackNext(words[addr]).1
    }

    /** The objects with their flags, in list order. */
    ghost function Listing(): (r: seq<BigObject>)
      reads this
      requires Valid()
      ensures |r| == |objects|
      ensures forall i :: 0 <= i < |r| ==> r[i] == BigObject(objects[i], Young(objects[i]))
    {
      var objs := objects;
      var ws := words;
      seq(|objs|, i requires 0 <= i < |objs| => BigObject(objs[i], objs[i] in ws && UnpackNext(ws[objs[i]]).1))
    }

    /** `big_space_init`. */
    constructor (thresholdInit: nat)
      ensures Valid() && allocatedSize == 0 && threshold == thresholdInit
      ensures objects == [] && words == map[] && head == 0
    {
      allocatedSize := 0;
      threshold := thresholdInit;
      head := 0;
      words := map[];
      objects := [];
    }

    /**
     * `big_space_alloc`, given the address the system allocator returns:
     * it fails, changing nothing, iff the allocatedSize size would exceed the
     * threshold; otherwise the object becomes the first one, linked to the
     * old first, without the young flag.
     */
    method Alloc(size: nat, addr: nat) returns (ok: bool)
      requires Valid() && addr != 0 && addr % 8 == 0 && addr !in words
      modifies this
      ensures Valid()
      ensures ok <==> old(allocatedSize) + size <= old(threshold)
      ensures !ok ==> allocatedSize == old(allocatedSize) && objects == old(objects) && words == old(words) && head == old(head)
      ensures ok ==> allocatedSize == old(allocatedSize) + size && objects == [addr] + old(objects)
      ensures ok ==> words == old(words)[addr := PackNext(old(head), false)] && head == addr
      ensures threshold == old(threshold)
    {
      var newAllocated := allocatedSize + size;
      if newAllocated > threshold {
        return false;
      }
      allocatedSize := newAllocated;
      var first := head;
      LinkedPrepend(objects, words, first, addr);
      words := words[addr := PackNext(first, false)];
      head := addr;
      objects := [addr] + objects;
      return true;
    }

    /** `big_space_remember_object`: set the young flag, keeping the link; nothing changes when it is set. */
    method Remember(addr: nat)
      requires Valid() && addr in words
      modifies this
      ensures words.Keys == old(words).Keys && Valid() && Young(addr)
      ensures old(Young(addr)) ==> words == old(words)
      ensures !old(Young(addr)) ==> words == old(words)[addr := PackNext(UnpackNext(old(words[addr])).0, true)]
      ensures objects == old(objects) && head == old(head)
      ensures allocatedSize == old(allocatedSize) && threshold == old(threshold)
    {
      var (next, young) := UnpackNext(words[addr]);
      if !young {
        LinkedFlag(objects, words, head, addr, true);
        UnpackPack(next, true);
        words := words[addr := PackNext(next, true)];
      }
    }

    /** `big_space_foreach`: follow the links from the head, unpacking each word. */
    method Foreach() returns (r: seq<BigObject>)
      requires Valid()
      ensures r == Listing()
    {
      r := [];
      var cur := head;
      ghost var i := 0;
      while cur != 0
        invariant i <= |objects|
        invariant cur == if i < |objects| then objects[i] else 0
        invariant r == Listing()[..i]
        decreases |objects| - i
      {
        LinkedNext(objects, words, head, i);
        var (next, young) := UnpackNext(words[cur]);
        r := r + [BigObject(cur, young)];
        cur := next;
        i := i + 1;
      }
      assert Listing()[..i] == Listing();
    }
  }

  /* ----- Remembered set ----- */

  /** `OLD_SPACE_CHUNK_REMEMBERED_SET_BUCKET_BITS`. */
  const BucketBits: nat := 1024

  /** A multiple of a positive number divided by it gives the factor back. */
  lemma MulDiv(j: nat, p: nat)
    requires p > 0
    ensures (j * p) / p == j && (j * p) % p == 0
  {
    if j > 0 {
      MulDiv(j - 1, p);
      assert j * p == (j - 1) * p + p;
    }
  }

  /** Multiplying by a positive number keeps the order. */
  lemma MulLess(a: nat, b: nat, p: nat)
    requires a < b && p > 0
    ensures a * p < b * p
  {
    assert b * p == a * p + (b - a) * p;
  }

  /**
   * `struct old_space_chunk_remembered_set`: a bucket per 1024 words of the
   * chunk, each absent or a bitset over those words (given here by its set
   * bits).
   */
  class RememberedSet {
    const ptr: nat
    const bucketCount: nat
    var buckets: seq<Option<set<nat>>>

    predicate Valid()
      reads this
    {
      ptr > 0 && |buckets| == bucketCount &&
      forall i :: 0 <= i < |buckets| && buckets[i].Some? ==> forall b :: b in buckets[i].value ==> b < BucketBits
    }

    /** Whether the word at index j of the chunk is recorded. */
    predicate RecordedIndex(j: nat)
      reads this
    {
      j / BucketBits < |buckets| && buckets[j / BucketBits].Some? && j % BucketBits in buckets[j / BucketBits].value
    }

    /** Whether byte offset o of the chunk is recorded: a recorded word's offset. */
    predicate Recorded(o: nat)
      reads this
      requires ptr > 0
    {
      o % ptr == 0 && RecordedIndex(o / ptr)
    }

    /** `old_space_chunk_remembered_set_create`: one empty bucket per 1024 words of the chunk. */
    constructor (w: Width, chunkSize: nat)
      ensures Valid() && ptr == Ptr(w) && bucketCount == chunkSize / Ptr(w) / BucketBits
      ensures forall i :: 0 <= i < |buckets| ==> buckets[i].None?
    {
      ptr := Ptr(w);
      bucketCount := chunkSize / Ptr(w) / BucketBits;
      buckets := seq(chunkSize / Ptr(w) / BucketBits, _ => None);
    }

    /**
     * `old_space_chunk_remembered_set_record`: word offset/ptr is bit
     * (offset/ptr) % 1024 of bucket (offset/ptr) / 1024, the bucket created
     * empty on first use. Afterwards exactly one more offset is recorded.
     */
    method Record(offset: nat)
      requires Valid() && offset % ptr == 0 && offset / ptr / BucketBits < bucketCount
      modifies this
      ensures Valid()
      ensures forall o: nat :: Recorded(o) <==> old(Recorded(o)) || o == offset
    {
      var index := offset / ptr;
      var bucketIndex := index / BucketBits;
      var bitIndex := index % BucketBits;
      var bucket := if buckets[bucketIndex].None? then {} else buckets[bucketIndex].value;
      buckets := buckets[bucketIndex := Some(bucket + {bitIndex})];
      forall o: nat
        ensures Recorded(o) <==> old(Recorded(o)) || o == offset
      {
        if o % ptr == 0 {
          var j := o / ptr;
          if j / BucketBits == bucketIndex && j % BucketBits == bitIndex {
            assert j == index;
            assert o == ptr * j && offset == ptr * index;
          }
        }
      }
    }

    /**
     * `old_space_chunk_remembered_set_foreach`: the recorded offsets, in
     * increasing order, bucket by bucket.
     */
    method Foreach() returns (offsets: seq<nat>)
      requires Valid()
      ensures forall o: nat :: o in offsets <==> Recorded(o)
      ensures Increasing(offsets)
    {
      offsets := [];
      ghost var indices: seq<nat> := [];
      for i := 0 to |buckets|
        invariant Scaled(offsets, indices, ptr) && Increasing(indices)
        invariant forall k :: 0 <= k < |indices| ==> indices[k] < i * BucketBits
        invariant forall j: nat :: j in indices <==> RecordedIndex(j) && j < i * BucketBits
      {
        if buckets[i].Some? {
          var more: seq<nat>;
          ghost var moreIndices: seq<nat>;
          more, moreIndices := ScanBucket(i * BucketBits, buckets[i].value, ptr);
          forall j: nat | i * BucketBits <= j < i * BucketBits + BucketBits
            ensures j / BucketBits == i && j % BucketBits == j - i * BucketBits
          {
            BucketOf(j, i);
          }
          IncreasingAppend(indices, moreIndices, i * BucketBits);
          offsets := offsets + more;
          indices := indices + moreIndices;
        }
      }
      ScaledOffsets(offsets, indices, ptr);
    }
  }

  /** Offsets are word indices scaled by the pointer size. */
  predicate Scaled(offsets: seq<nat>, indices: seq<nat>, p: nat) {
    |offsets| == |indices| && forall k :: 0 <= k < |offsets| ==> offsets[k] == indices[k] * p
  }

  predicate Increasing(s: seq<nat>) {
    forall k :: 0 < k < |s| ==> s[k - 1] < s[k]
  }

  /** Two increasing runs, the first below a bound and the second from it, make one. */
  lemma IncreasingAppend(a: seq<nat>, b: seq<nat>, bound: nat)
    requires Increasing(a) && Increasing(b)
    requires forall k :: 0 <= k < |a| ==> a[k] < bound
    requires forall k :: 0 <= k < |b| ==> bound <= b[k]
    ensures Increasing(a + b)
  {
  }

  /** Word j lies in bucket i at bit j - 1024 i. */
  lemma BucketOf(j: nat, i: nat)
    requires i * BucketBits <= j < i * BucketBits + BucketBits
    ensures j / BucketBits == i && j % BucketBits == j - i * BucketBits
  {
  }

  /** Scaling keeps the order, and an offset is listed iff it is a multiple of p whose index is. */
  lemma ScaledOffsets(offsets: seq<nat>, indices: seq<nat>, p: nat)
    requires p > 0 && Scaled(offsets, indices, p) && Increasing(indices)
    ensures Increasing(offsets)
    ensures forall o: nat :: o in offsets <==> o % p == 0 && o / p in indices
  {
    forall k | 0 < k < |offsets|
      ensures offsets[k - 1] < offsets[k]
    {
      MulLess(indices[k - 1], indices[k], p);
    }
    forall o: nat
      ensures o in offsets <==> o % p == 0 && o / p in indices
    {
      if o in offsets {
        var k :| 0 <= k < |offsets| && offsets[k] == o;
        MulDiv(indices[k], p);
      }
      if o % p == 0 && o / p in indices {
        var k :| 0 <= k < |indices| && indices[k] == o / p;
        assert offsets[k] == o;
      }
    }
  }

  /**
   * The inner loop of `old_space_chunk_remembered_set_foreach` over one
   * bucket, whose first word has index `base`: bit b stands for offset
   * `base * p | b * p`; the two parts occupy disjoint bits, so the or is
   * the sum `(base + b) * p`.
   */
  method ScanBucket(base: nat, bucket: set<nat>, p: nat) returns (offsets: seq<nat>, ghost indices: seq<nat>)
    requires p > 0
    ensures Scaled(offsets, indices, p) && Increasing(indices)
    ensures forall k :: 0 <= k < |indices| ==> base <= indices[k] < base + BucketBits
    ensures forall j: nat :: j in indices <==> base <= j < base + BucketBits && j - base in bucket
  {
    offsets := [];
    indices := [];
    for b := 0 to BucketBits
      invariant Scaled(offsets, indices, p) && Increasing(indices)
      invariant forall k :: 0 <= k < |indices| ==> base <= indices[k] < base + b
      invariant forall j: nat :: j in indices <==> base <= j < base + b && j - base in bucket
    {
      if b in bucket {
        offsets := offsets + [(base + b) * p];
        indices := indices + [base + b];
      }
    }
  }

  /* ----- Allocation ----- */

  /** log2 of the pointer size. */
  function PtrShift(w: Width): (k: nat)
    ensures k < w && Pow2(k) == Ptr(w)
  {
    assert Pow2(2) == 4 && Pow2(3) == 8 by {
      assert Pow2(1) == 2;
    }
    if w == 32 then 2 else 3
  }

  /** `zis_round_up_to_n_pow2(sizeof(void *), n)`: the BYTES size of an extendable object. */
  function RoundedBytes(w: Width, n: nat): (r: nat)
    requires IsUWord(w, n)
    ensures r % Ptr(w) == 0
    ensures n + Ptr(w) - 1 < Modulus(w) ==> n <= r < n + Ptr(w)
  {
    Algorithm.RoundUpMultipleOf(w, PtrShift(w), n);
    if n + Ptr(w) - 1 < Modulus(w) then
      Algorithm.RoundUpLeast(w, PtrShift(w), n);
      Algorithm.RoundUp(w, PtrShift(w), n)
    else
      Algorithm.RoundUp(w, PtrShift(w), n)
  }

  /**
   * The object size `zis_objmem_alloc_ex` computes: the cached size, or for
   * an extendable type the head, the slots (the type's number or the
   * requested one) and the bytes (the type's length or the requested length
   * rounded up to a pointer).
   */
  function AllocSize(w: Width, t: TypeObj.Type, extSlots: nat, extBytes: nat): nat
    reads t
    requires IsUWord(w, extBytes)
  {
    if t.objSize != 0 then t.objSize
    else
      var slots: nat := if t.slotsNum.Extendable? then extSlots else t.slotsNum.n;
      var bytes: nat := if t.bytesLen.Extendable? then RoundedBytes(w, extBytes) else t.bytesLen.n;
      TypeObj.HeadSize(w) + SlotBytes(w, slots) + bytes
  }

  /** The bytes `n` slots take. */
  function SlotBytes(w: Width, n: nat): nat {
    n * Ptr(w)
  }

  /**
   * The new object after `zis_objmem_alloc_ex` fills it in: slot 0 holds
   * the slot count as a small integer when slots are extendable, and the
   * first BYTES word holds the rounded byte size when bytes are.
   */
  function Initialized(w: Width, t: TypeObj.Type, extSlots: nat, extBytes: nat, raw: TypeObj.Obj): TypeObj.Obj
    reads t
    requires IsUWord(w, extBytes) && (t.slotsNum.Extendable? ==> |raw.slots| > 0)
  {
    TypeObj.Obj(
      if t.slotsNum.Extendable? then raw.slots[0 := Values.Small(extSlots)] else raw.slots,
      if t.bytesLen.Extendable? then RoundedBytes(w, extBytes) else raw.bytesSizeWord)
  }

  /**
   * The size the allocator reserves is the size the object reports once
   * filled in (the closing assertion of `zis_objmem_alloc_ex`), and the
   * object reports the requested slot count and the rounded byte size.
   */
  lemma AllocSizeIsObjectSize(w: Width, t: TypeObj.Type, extSlots: nat, extBytes: nat, raw: TypeObj.Obj)
    requires t.Valid(w) && IsUWord(w, extBytes)
    requires t.objSize != 0 ==> extSlots == 0 && extBytes == 0
    requires t.slotsNum.Extendable? ==> |raw.slots| > 0 && extSlots >= 1
    ensures t.Readable(Initialized(w, t, extSlots, extBytes, raw))
    ensures t.ObjectSize(w, Initialized(w, t, extSlots, extBytes, raw)) == AllocSize(w, t, extSlots, extBytes)
    ensures t.slotsNum.Extendable? ==> t.SlotCount(Initialized(w, t, extSlots, extBytes, raw)) == extSlots
    ensures t.bytesLen.Extendable? ==> t.BytesSize(Initialized(w, t, extSlots, extBytes, raw)) == RoundedBytes(w, extBytes)
  {
    var o := Initialized(w, t, extSlots, extBytes, raw);
    t.ObjectSizeIsLayout(w, o);
  }

  /** `enum zis_objmem_alloc_type`, with any other value standing for an out-of-range one. */
  datatype AllocType = AllocAuto | AllocSurv | AllocHuge | AllocOther

  /** The space an object is allocatedSize from. */
  datatype SpaceKind = InNew | InOld | InBig

  /**
   * The branch `zis_objmem_alloc_ex` takes: objects over the non-big limit
   * and HUGE requests go to the big space, SURV to the old space, AUTO and
   * anything unknown to the new space.
   */
  function SpaceFor(w: Width, a: AllocType, size: nat): (s: SpaceKind)
    ensures s == InBig <==> a == AllocHuge || size > NonBigMax(w)
    ensures s == InOld <==> a == AllocSurv && size <= NonBigMax(w)
    ensures s == InNew <==> (a == AllocAuto || a == AllocOther) && size <= NonBigMax(w)
  {
    match a
    case AllocHuge => InBig
    case AllocSurv => if size > NonBigMax(w) then InBig else InOld
    case _ => if size > NonBigMax(w) then InBig else InNew
  }

  /* ----- GC type selection ----- */

  /** `enum zis_objmem_gc_type`. */
  const GcNone: int := -1
  const GcAuto: int := 0
  const GcFast: int := 1
  const GcFull: int := 2

  /**
   * The GC `zis_objmem_gc` runs and returns: FULL when one was forced,
   * AUTO becomes FAST, FAST and FULL stay, and an illegal type runs none.
   */
  function SelectGc(forceFull: bool, gcType: int): (r: int)
    ensures r == GcFull <==> forceFull || gcType == GcFull
    ensures r == GcFast <==> !forceFull && (gcType == GcAuto || gcType == GcFast)
    ensures r == GcNone <==> !forceFull && !(GcAuto <= gcType <= GcFull)
  {
    if forceFull then GcFull
    else if gcType == GcAuto || gcType == GcFast then GcFast
    else if gcType == GcFull then GcFull
    else GcNone
  }

  /** The GC-control part of `struct zis_objmem_context`. */
  class GcControl {
    var forceFullGc: bool
    var currentGcType: int
    /** The GC the last run performed (the collectors themselves are not modelled). */
    ghost var ran: int

    /** `zis_objmem_gc`: the forced flag is consumed and no GC is current afterwards. */
    method Gc(gcType: int) returns (r: int)
      modifies this
      ensures r == SelectGc(old(forceFullGc), gcType)
      ensures !forceFullGc && currentGcType == GcNone && ran == r
    {
      var t := gcType;
      if forceFullGc {
        forceFullGc := false;
        t := GcFull;
      } else if t == GcAuto {
        t := GcFast;
      }
      currentGcType := t;
      if t == GcFast {
        ran := GcFast;
      } else if t == GcFull {
        ran := GcFull;
      } else {
        t := GcNone;
        ran := GcNone;
      }
      currentGcType := GcNone;
      return t;
    }
  }
}
