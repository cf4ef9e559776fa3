/**
 * The bytecode assembler of `core/assembly.c`: an instruction buffer, a
 * label table and a table of pending jump instructions, all growing in
 * place; the symbol and constant tables of the function being built; and
 * `zis_assembler_finish`, which appends a final `RETNIL`, fills in the jump
 * offsets (turning a conditional jump whose offset does not fit in 9 bits
 * into an inverted jump over a following `JMP`, which needs an extra
 * instruction and so restarts the fill) and copies the jumps into the code.
 *
 * Jump instructions are kept symbolic (`Slot.Jump`): the bit encoders of
 * the `AsBw`/`AsBC` formats are not part of this model.
 */
module Assembly {
  import opened Wrappers
  import opened AsmNames
  import Instr
  import Words
  import Values
  import FuncObj

  const U32: nat := 0x1_0000_0000

  /** `UINT32_MAX`: a label that has not been placed (label storage is cleared to all ones). */
  const Unplaced: nat := 0xffff_ffff

  /** `ZIS_INSTR_I9_MIN` .. `ZIS_INSTR_I9_MAX`. */
  predicate InI9(x: int) {
    -0x100 <= x <= 0xff
  }

  /** `ZIS_INSTR_I25_MIN` .. `ZIS_INSTR_I25_MAX`. */
  predicate InI25(x: int) {
    -0x100_0000 <= x <= 0xff_ffff
  }

  /** `(int32_t)` applied to a `uint32_t`: the two's complement reading of its bits. */
  function Int32(u: nat): (r: int)
    requires u < U32
    ensures -0x8000_0000 <= r < 0x8000_0000
    ensures (r - u) % U32 == 0
  {
    if u < 0x8000_0000 then u else u - U32
  }

  /** `(int32_t)(label - instr_i)`, the subtraction done on `uint32_t`. */
  function JumpOffset(target: nat, at: nat): int {
    Int32((target - at) % U32)
  }

  /** The jump offset is the label's address minus the jump's own index whenever that difference fits. */
  lemma JumpOffsetExact(target: nat, at: nat)
    requires target < U32 && at < U32
    requires -0x8000_0000 <= target - at < 0x8000_0000
    ensures JumpOffset(target, at) == target - at
  {
    var d := target - at;
    if d < 0 {
      assert (d + U32) % U32 == d % U32;
      assert d % U32 == d + U32;
    } else {
      assert d % U32 == d;
    }
  }

  /**
   * One instruction word of the buffer: an encoded word, the placeholder
   * `make_Aw(_ZIS_OPC_COUNT, index)` standing for jump-table entry `index`,
   * or a jump with opcode `op`, signed offset `offset` and the other operand
   * bits `operand` (B or B and C; 0 for `JMP`).
   */
  datatype Slot =
    | Word(w: Instr.Word)
    | Placeholder(index: nat)
    | Jump(op: nat, offset: int, operand: nat)

  /** Capacities of the growing tables: 0, then `initial`, then doubling. */
  predicate Doubling(c: nat, initial: nat)
    requires initial > 0
    decreases c
  {
    c == 0 || c == initial || (c > initial && c % 2 == 0 && Doubling(c / 2, initial))
  }

  /** The next capacity of a full table. */
  function Grow(c: nat, initial: nat): (r: nat)
    requires initial > 0 && Doubling(c, initial)
    ensures r > c && Doubling(r, initial)
  {
    if c == 0 then initial else 2 * c
  }

  /** A uint32 address moved up by one when it is at or above `from` (`x + 1U`, wrapping). */
  function ShiftAddr(x: nat, from: nat): nat {
    if x >= from then (x + 1) % U32 else x
  }

  /** `ShiftAddr` where no wrap-around can happen. */
  function Bump(x: nat, from: nat): nat {
    if x >= from then x + 1 else x
  }

  // ----- instruction buffer -----

  /** `struct instr_buffer`. */
  class InstrBuffer {
    var data: seq<Slot>
    var capacity: nat

    ghost predicate Valid()
      reads this
    {
      |data| <= capacity && Doubling(capacity, 32)
    }

    /** `instr_buffer_init`. */
    constructor ()
      ensures Valid() && data == [] && capacity == 0
    {
      data := [];
      capacity := 0;
    }

    /** `instr_buffer_append`: grows a full buffer (to 32, then doubling) and appends `x`. */
    method Append(x: Slot)
      requires Valid()
      modifies this
      ensures Valid() && data == old(data) + [x]
      ensures capacity == if |old(data)| == old(capacity) then Grow(old(capacity), 32) else old(capacity)
    {
      if |data| == capacity {
        capacity := Grow(capacity, 32);
      }
      data := data + [x];
    }

    /** `instr_buffer_insert`: appends `x`, then moves the tail from `pos` one place up and writes `x` at `pos`. */
    method Insert(pos: nat, x: Slot)
      requires Valid() && pos <= |data|
      modifies this
      ensures Valid() && data == old(data[..pos]) + [x] + old(data[pos..])
    {
      Append(x);
      if pos < |data| {
        data := data[..pos] + [x] + data[pos..|data| - 1];
      }
    }

    /** A store into the buffer's storage. */
    method Set(pos: nat, x: Slot)
      requires Valid() && pos < |data|
      modifies this
      ensures Valid() && data == old(data)[pos := x]
    {
      data := data[pos := x];
    }

    /** `instr_buffer_clear`. */
    method Clear()
      requires Valid()
      modifies this
      ensures Valid() && data == [] && capacity == old(capacity)
    {
      data := [];
    }
  }

  // ----- label table -----

  /** `struct label_table`: the address of each label, indexed by label id. */
  class LabelTable {
    var labels: seq<nat>
    var capacity: nat

    ghost predicate Valid()
      reads this
    {
      |labels| <= capacity && Doubling(capacity, 8) &&
      forall i :: 0 <= i < |labels| ==> labels[i] < U32
    }

    /** `label_table_init`. */
    constructor ()
      ensures Valid() && labels == [] && capacity == 0
    {
      labels := [];
      capacity := 0;
    }

    /**
     * `label_table_alloc`: grows a full table (to 8, then doubling) and hands
     * out the next id. The new label holds the cleared value.
     */
    method Alloc() returns (id: nat)
      requires Valid()
      modifies this
      ensures Valid() && id == |old(labels)| && labels == old(labels) + [Unplaced]
    {
      if |labels| == capacity {
        capacity := Grow(capacity, 8);
      }
      id := |labels|;
      labels := labels + [Unplaced];
    }

    /** A store through `label_table_ref`. */
    method Place(id: nat, addr: nat)
      requires Valid() && id < |labels| && addr < U32
      modifies this
      ensures Valid() && labels == old(labels)[id := addr]
    {
      labels := labels[id := addr];
    }

    /** `label_table_shift`: every label at or above `from` moves up by one. */
    method Shift(from: nat)
      requires Valid()
      modifies this
      ensures Valid() && |labels| == |old(labels)|
      ensures forall i :: 0 <= i < |labels| ==> labels[i] == ShiftAddr(old(labels)[i], from)
    {
      var i := 0;
      while i < |labels|
        invariant 0 <= i <= |labels| == |old(labels)|
        invariant Valid()
        invariant forall j :: 0 <= j < i ==> labels[j] == ShiftAddr(old(labels)[j], from)
        invariant forall j :: i <= j < |labels| ==> labels[j] == old(labels)[j]
      {
        var x := labels[i];
        if x >= from {
          labels := labels[i := (x + 1) % U32];
        }
        i := i + 1;
      }
    }

    /** `label_table_clear`: the used labels are reset to all ones and the table emptied. */
    method Clear()
      requires Valid()
      modifies this
      ensures Valid() && labels == [] && capacity == old(capacity)
    {
      labels := [];
    }
  }

  // ----- jump instruction table -----

  /**
   * `struct jumpinstr_table_entry`: the jump's address in the buffer, its
   * label, the jump instruction and, once extended, the `JMP` that follows it
   * (`instr[1] != UINT32_MAX`).
   */
  datatype JumpEntry = JumpEntry(address: nat, labelId: nat, first: Slot, second: Option<Slot>)

  predicate Extended(e: JumpEntry) {
    e.second.Some?
  }

  /** `sizeof(struct jumpinstr_table_entry)`: four 32-bit fields. */
  const EntryBytes: nat := 16

  /** `sizeof(struct jumpinstr_table)`: a pointer and two `size_t`s. */
  function TableBytes(w: Words.Width): nat {
    3 * (w / 8)
  }

  /** The storage `jumpinstr_table_add` allocates as written: `capacity * sizeof(struct jumpinstr_table)` bytes. */
  function AsWrittenStorageBytes(w: Words.Width, capacity: nat): nat {
    capacity * TableBytes(w)
  }

  /**
   * As written, the last entry of a full allocation lies inside the storage
   * on a 64-bit target and past its end on a 32-bit one.
   */
  lemma LastEntryFits(w: Words.Width, capacity: nat)
    requires capacity > 0
    ensures capacity * EntryBytes <= AsWrittenStorageBytes(w, capacity) <==> w == 64
  {
    if w == 32 {
      assert TableBytes(w) == 12;
    } else {
      assert TableBytes(w) == 24;
    }
  }

  /** The storage sized by the entry type, `capacity * sizeof(struct jumpinstr_table_entry)`: every entry below the capacity lies inside it. */
  function StorageBytes(capacity: nat): (r: nat)
    ensures forall i :: 0 <= i < capacity ==> i * EntryBytes + EntryBytes <= r
  {
    capacity * EntryBytes
  }

  /** `struct jumpinstr_table`; `storageBytes` is the byte size of its storage, sized by the entry type (see `StorageBytes`). */
  class JumpTable {
    const width: Words.Width
    var entries: seq<JumpEntry>
    var capacity: nat
    var storageBytes: nat

    ghost predicate Valid()
      reads this
    {
      |entries| <= capacity && Doubling(capacity, 4) && storageBytes == StorageBytes(capacity)
    }

    /** `jumpinstr_table_init`. */
    constructor (w: Words.Width)
      ensures Valid() && width == w && entries == [] && capacity == 0
    {
      width := w;
      entries := [];
      capacity := 0;
      storageBytes := 0;
    }

    /**
     * `jumpinstr_table_add`: grows a full table (to 4, then doubling) and
     * appends an entry that is not extended, which lies inside the storage.
     */
    method Add(addr: nat, instr: Slot, labelId: nat) returns (index: nat)
      requires Valid()
      modifies this
      ensures Valid() && index == |old(entries)|
      ensures index * EntryBytes + EntryBytes <= storageBytes
      ensures entries == old(entries) + [JumpEntry(addr, labelId, instr, None)]
    {
      if |entries| == capacity {
        capacity := Grow(capacity, 4);
        storageBytes := StorageBytes(capacity);
      }
      index := |entries|;
      entries := entries + [JumpEntry(addr, labelId, instr, None)];
    }

    /** A store through `jumpinstr_table_get`. */
    method Set(index: nat, e: JumpEntry)
      requires Valid() && index < |entries|
      modifies this
      ensures Valid() && entries == old(entries)[index := e]
    {
      entries := entries[index := e];
    }

    /** `jumpinstr_table_shift`: every address at or above `from` moves up by one. */
    method Shift(from: nat)
      requires Valid()
      modifies this
      ensures Valid() && |entries| == |old(entries)|
      ensures forall i :: 0 <= i < |entries| ==>
        entries[i] == old(entries)[i].(address := ShiftAddr(old(entries)[i].address, from))
    {
      var i := 0;
      while i < |entries|
        invariant 0 <= i <= |entries| == |old(entries)|
        invariant Valid()
        invariant forall j :: 0 <= j < i ==>
          entries[j] == old(entries)[j].(address := ShiftAddr(old(entries)[j].address, from))
        invariant forall j :: i <= j < |entries| ==> entries[j] == old(entries)[j]
      {
        var x := entries[i].address;
        if x >= from {
          entries := entries[i := entries[i].(address := (x + 1) % U32)];
        }
        i := i + 1;
      }
    }

    /** `jumpinstr_table_clear`. */
    method Clear()
      requires Valid()
      modifies this
      ensures Valid() && entries == [] && capacity == old(capacity) && storageBytes == old(storageBytes)
    {
      entries := [];
    }
  }

  // ----- layout of pending jumps -----

  /**
   * Every entry's address holds its placeholder (and so does the next slot
   * once it is extended), and every placeholder in the buffer is one of
   * those.
   */
  ghost predicate Placed(code: seq<Slot>, js: seq<JumpEntry>) {
    (forall i :: 0 <= i < |js| ==>
      js[i].address < |code| && code[js[i].address] == Placeholder(i) &&
      (Extended(js[i]) ==> js[i].address + 1 < |code| && code[js[i].address + 1] == Placeholder(i))) &&
    (forall p :: 0 <= p < |code| && code[p].Placeholder? ==> Owned(code, js, p))
  }

  ghost predicate Owned(code: seq<Slot>, js: seq<JumpEntry>, p: nat)
    requires p < |code| && code[p].Placeholder?
  {
    var i := code[p].index;
    i < |js| && (p == js[i].address || (Extended(js[i]) && p == js[i].address + 1))
  }

  predicate IsJumpOp(op: nat) {
    op == Jmp || IsCondJump(op)
  }

  /**
   * The shape of an entry: its instruction is a jump; a `JMP` carries no
   * other operand and is never extended; an extended conditional jump skips
   * 2 instructions and is followed by a `JMP`.
   */
  ghost predicate EntryShape(e: JumpEntry) {
    e.first.Jump? && IsJumpOp(e.first.op) &&
    (e.first.op == Jmp ==> e.first.operand == 0 && !Extended(e)) &&
    (Extended(e) ==>
      IsCondJump(e.first.op) && e.first.offset == 2 &&
      e.second.value.Jump? && e.second.value.op == Jmp && e.second.value.operand == 0)
  }

  /** An entry descends from the entry `o` added by `append_jump_*`: same label and operand, the opcode inverted once extended. */
  ghost predicate Derived(e: JumpEntry, o: JumpEntry) {
    e.labelId == o.labelId && e.first.Jump? && o.first.Jump? && e.first.operand == o.first.operand &&
    (if Extended(e) then IsCondJump(o.first.op) && e.first.op == Opposite(o.first.op)
     else e.first.op == o.first.op)
  }

  /**
   * A filled entry: its offset (of the `JMP`, once extended) is the label's
   * address minus the entry's address, and fits its field: 25 bits for a
   * `JMP`, 9 bits for a conditional jump.
   */
  ghost predicate Resolved(e: JumpEntry, target: nat) {
    var off := JumpOffset(target, e.address);
    if !Extended(e) then
      e.first.Jump? && e.first.offset == off && (if e.first.op == Jmp then InI25(off) else InI9(off))
    else
      e.second.value.Jump? && e.second.value.offset == off && InI25(off)
  }

  /** The number of entries not yet extended. */
  function Unextended(js: seq<JumpEntry>): (n: nat)
    ensures n <= |js|
  {
    if js == [] then 0 else (if Extended(js[0]) then 0 else 1) + Unextended(js[1..])
  }

  /** The words of a buffer that are not jumps, in order. */
  function WordsOf(code: seq<Slot>): seq<Instr.Word> {
    if code == [] then [] else (if code[0].Word? then [code[0].w] else []) + WordsOf(code[1..])
  }

  predicate IsReturnOp(op: Instr.Word) {
    op == Ret as Instr.Word || op == RetNil as Instr.Word || op == Thr as Instr.Word
  }

  /** The buffer ends with `RET`, `RETNIL` or `THR`. */
  predicate EndsWithReturn(code: seq<Slot>) {
    |code| > 0 && code[|code| - 1].Word? && IsReturnOp(Instr.ExtractOpcode(code[|code| - 1].w))
  }

  /** `make_Aw(RETNIL, 0)`. */
  const RetNilWord: Instr.Word := Instr.MakeAw(RetNil as Instr.Word, 0)

  /** `RETNIL` is a return. */
  lemma RetNilReturns()
    ensures IsReturnOp(Instr.ExtractOpcode(RetNilWord))
  {
    var op: Instr.Opcode := 0x11;
    assert op == RetNil as Instr.Word;
    Instr.AwRoundTrip(op, 0);
  }

  // ----- lemmas about the layout -----

  lemma {:induction false} UnextendedSameStatus(a: seq<JumpEntry>, b: seq<JumpEntry>)
    requires |a| == |b|
    requires forall i :: 0 <= i < |a| ==> (Extended(a[i]) <==> Extended(b[i]))
    ensures Unextended(a) == Unextended(b)
  {
    if a != [] {
      UnextendedSameStatus(a[1..], b[1..]);
    }
  }

  /** Extending one entry lowers the count of unextended entries by one. */
  lemma {:induction false} UnextendedExtend(js: seq<JumpEntry>, k: nat, e: JumpEntry)
    requires k < |js| && !Extended(js[k]) && Extended(e)
    ensures Unextended(js[k := e]) == Unextended(js) - 1
  {
    if k > 0 {
      assert js[k := e][1..] == js[1..][k - 1 := e];
      UnextendedExtend(js[1..], k - 1, e);
    }
  }

  lemma {:induction false} WordsOfConcat(a: seq<Slot>, b: seq<Slot>)
    ensures WordsOf(a + b) == WordsOf(a) + WordsOf(b)
  {
    if a == [] {
      assert a + b == b;
    } else {
      assert (a + b)[0] == a[0] && (a + b)[1..] == a[1..] + b;
      WordsOfConcat(a[1..], b);
    }
  }

  /** Inserting a slot that is not a word keeps the words. */
  lemma WordsOfInsert(code: seq<Slot>, pos: nat, x: Slot)
    requires pos <= |code| && !x.Word?
    ensures WordsOf(code[..pos] + [x] + code[pos..]) == WordsOf(code)
  {
    var front, back := code[..pos], code[pos..];
    var s := front + [x];
    var ws := WordsOf([x]);
    assert ws == [] by {
      var one := [x];
      assert one[0] == x && one[1..] == [];
      assert WordsOf(one) == [] + WordsOf(one[1..]);
    }
    WordsOfConcat(front, [x]);
    assert WordsOf(front) + ws == WordsOf(front);
    assert WordsOf(s) == WordsOf(front);
    WordsOfConcat(s, back);
    WordsOfConcat(front, back);
    assert front + back == code;
  }

  /** The slots of a buffer after an insertion at `pos`. */
  lemma InsertSlots(code: seq<Slot>, pos: nat, x: Slot, code2: seq<Slot>)
    requires pos <= |code| && code2 == code[..pos] + [x] + code[pos..]
    ensures |code2| == |code| + 1 && code2[pos] == x
    ensures forall p :: 0 <= p < pos ==> code2[p] == code[p]
    ensures forall p :: pos < p < |code2| ==> code2[p] == code[p - 1]
  {
  }

  /** Rewriting slots that are not words into slots that are not words keeps the words. */
  lemma {:induction false} WordsOfSameWords(a: seq<Slot>, b: seq<Slot>)
    requires |a| == |b|
    requires forall p :: 0 <= p < |a| ==> (a[p].Word? || b[p].Word? ==> a[p] == b[p])
    ensures WordsOf(a) == WordsOf(b)
  {
    if a != [] {
      WordsOfSameWords(a[1..], b[1..]);
    }
  }

  /** Appending a jump's placeholder and its unextended entry keeps every jump placed. */
  lemma PlacedAppendJump(code: seq<Slot>, js: seq<JumpEntry>, e: JumpEntry)
    requires Placed(code, js) && e.address == |code| && !Extended(e)
    ensures Placed(code + [Placeholder(|js|)], js + [e])
  {
    var code2 := code + [Placeholder(|js|)];
    var js2 := js + [e];
    forall p | 0 <= p < |code2| && code2[p].Placeholder?
      ensures Owned(code2, js2, p)
    {
      if p < |code| {
        assert code2[p] == code[p] && Owned(code, js, p);
      }
    }
  }

  /** Appending a word keeps every jump placed. */
  lemma PlacedAppendWord(code: seq<Slot>, js: seq<JumpEntry>, w: Instr.Word)
    requires Placed(code, js)
    ensures Placed(code + [Word(w)], js)
  {
    var code2 := code + [Word(w)];
    forall p | 0 <= p < |code2| && code2[p].Placeholder?
      ensures Owned(code2, js, p)
    {
      assert code2[p] == code[p] && Owned(code, js, p);
    }
  }

  /** Entries with the same addresses, labels and extension as `js0`. */
  ghost predicate SameLayout(js0: seq<JumpEntry>, js: seq<JumpEntry>) {
    |js| == |js0| &&
    forall i :: 0 <= i < |js| ==>
      js[i].address == js0[i].address && js[i].labelId == js0[i].labelId && (Extended(js[i]) <==> Extended(js0[i]))
  }

  /** Every entry is well shaped, descends from its `origin` entry and names one of `labelCount` labels. */
  ghost predicate Shaped(js: seq<JumpEntry>, origin: seq<JumpEntry>, labelCount: nat) {
    |js| == |origin| &&
    forall i :: 0 <= i < |js| ==> EntryShape(js[i]) && Derived(js[i], origin[i]) && js[i].labelId < labelCount
  }

  /** The entries below `k` are filled. */
  ghost predicate ResolvedBelow(js: seq<JumpEntry>, labels: seq<nat>, k: nat) {
    k <= |js| &&
    forall i :: 0 <= i < k ==> js[i].labelId < |labels| && Resolved(js[i], labels[js[i].labelId])
  }

  /** Filling entry `k` with `e2` keeps the layout and shape and extends the filled prefix. */
  lemma FillEntry(js0: seq<JumpEntry>, js: seq<JumpEntry>, origin: seq<JumpEntry>, labels: seq<nat>, k: nat, e2: JumpEntry)
    requires SameLayout(js0, js) && Shaped(js, origin, |labels|) && ResolvedBelow(js, labels, k) && k < |js|
    requires e2.address == js[k].address && e2.labelId == js[k].labelId && (Extended(e2) <==> Extended(js[k]))
    requires EntryShape(e2) && Derived(e2, origin[k]) && Resolved(e2, labels[e2.labelId])
    ensures SameLayout(js0, js[k := e2]) && Shaped(js[k := e2], origin, |labels|)
    ensures ResolvedBelow(js[k := e2], labels, k + 1)
  {
  }

  /** Entries of the same layout keep the placement and the count of unextended entries. */
  lemma LayoutKeepsPlacement(code: seq<Slot>, js0: seq<JumpEntry>, js: seq<JumpEntry>)
    requires Placed(code, js0) && SameLayout(js0, js)
    ensures Placed(code, js) && Unextended(js) == Unextended(js0)
  {
    PlacedSameLayout(code, js0, js);
    UnextendedSameStatus(js0, js);
  }

  /** Entries that keep their addresses and extension keep their placement. */
  lemma PlacedSameLayout(code: seq<Slot>, js: seq<JumpEntry>, js2: seq<JumpEntry>)
    requires Placed(code, js) && |js2| == |js|
    requires forall i :: 0 <= i < |js| ==> js2[i].address == js[i].address && (Extended(js2[i]) <==> Extended(js[i]))
    ensures Placed(code, js2)
  {
    forall p | 0 <= p < |code| && code[p].Placeholder?
      ensures Owned(code, js2, p)
    {
      assert Owned(code, js, p);
    }
  }

  /** The shape of the buffer and table after extending entry `k` (see `PlacedAfterExtend`). */
  ghost predicate ExtendedLayout(code: seq<Slot>, js: seq<JumpEntry>, k: nat, code2: seq<Slot>, js2: seq<JumpEntry>) {
    k < |js| && js[k].address < |code| && |js2| == |js| && |code2| == |code| + 1 &&
    (forall p :: 0 <= p <= js[k].address ==> code2[p] == code[p]) &&
    code2[js[k].address + 1] == Placeholder(k) &&
    (forall p :: js[k].address + 1 < p < |code2| ==> code2[p] == code[p - 1]) &&
    forall i :: 0 <= i < |js| ==>
      js2[i].address == Bump(js[i].address, js[k].address + 1) &&
      (Extended(js2[i]) <==> Extended(js[i]) || i == k)
  }

  lemma ExtendedEntriesPlaced(code: seq<Slot>, js: seq<JumpEntry>, k: nat, code2: seq<Slot>, js2: seq<JumpEntry>, i: nat)
    requires ExtendedLayout(code, js, k, code2, js2) && i < |js2|
    requires Placed(code, js) && !Extended(js[k]) && |code| + 1 < U32
    ensures js2[i].address < |code2| && code2[js2[i].address] == Placeholder(i)
    ensures Extended(js2[i]) ==> js2[i].address + 1 < |code2| && code2[js2[i].address + 1] == Placeholder(i)
  {
    var a := js[k].address + 1;
    var x := js[i].address;
    assert code[x] == Placeholder(i);
    if x >= a {
      assert js2[i].address == x + 1;
      assert code2[x + 1] == code[x];
      if Extended(js2[i]) {
        assert code2[x + 2] == code[x + 1];
      }
    } else {
      assert js2[i].address == x;
      assert code2[x] == code[x];
      if i == k {
        assert code2[x + 1] == Placeholder(k);
      } else if Extended(js[i]) {
        assert code[x + 1] == Placeholder(i);
        assert x + 1 < a;
        assert code2[x + 1] == code[x + 1];
      }
    }
  }

  lemma ExtendedSlotOwned(code: seq<Slot>, js: seq<JumpEntry>, k: nat, code2: seq<Slot>, js2: seq<JumpEntry>, p: nat)
    requires ExtendedLayout(code, js, k, code2, js2) && p < |code2| && code2[p].Placeholder?
    requires Placed(code, js) && !Extended(js[k]) && |code| + 1 < U32
    ensures Owned(code2, js2, p)
  {
    var a := js[k].address + 1;
    if p < a {
      assert code2[p] == code[p];
      assert Owned(code, js, p);
      var i := code[p].index;
      assert js[i].address < a;
      assert js2[i].address == js[i].address;
    } else if p == a {
      assert code2[p] == Placeholder(k);
      assert js2[k].address == a - 1;
    } else {
      assert code2[p] == code[p - 1];
      assert Owned(code, js, p - 1);
      var i := code[p - 1].index;
      if p - 1 == js[i].address {
        assert js2[i].address == p;
      } else {
        assert i != k;
        assert js[i].address >= a;
        assert js2[i].address == p - 1;
      }
    }
  }

  /**
   * Extending entry `k`: a placeholder for it goes right after its address
   * and every entry above moves up; the placement is kept.
   */
  lemma PlacedAfterExtend(code: seq<Slot>, js: seq<JumpEntry>, k: nat, code2: seq<Slot>, js2: seq<JumpEntry>)
    requires Placed(code, js) && k < |js| && !Extended(js[k]) && |code| + 1 < U32
    requires ExtendedLayout(code, js, k, code2, js2)
    ensures Placed(code2, js2)
  {
    forall i | 0 <= i < |js2|
      ensures js2[i].address < |code2| && code2[js2[i].address] == Placeholder(i)
      ensures Extended(js2[i]) ==> js2[i].address + 1 < |code2| && code2[js2[i].address + 1] == Placeholder(i)
    {
      ExtendedEntriesPlaced(code, js, k, code2, js2, i);
    }
    forall p | 0 <= p < |code2| && code2[p].Placeholder?
      ensures Owned(code2, js2, p)
    {
      ExtendedSlotOwned(code, js, k, code2, js2, p);
    }
  }

  lemma ExtendKeepsEntries(js: seq<JumpEntry>, k: nat, e2: JumpEntry, origin: seq<JumpEntry>, labelCount: nat, js2: seq<JumpEntry>)
    requires |js| == |origin|
    requires forall i :: 0 <= i < |js| ==> EntryShape(js[i]) && Derived(js[i], origin[i]) && js[i].labelId < labelCount
    requires forall i :: 0 <= i < |js| ==> js[i].address + 1 < U32
    requires k < |js| && !Extended(js[k]) && js[k].first.Jump? && IsCondJump(js[k].first.op)
    requires e2.second.Some? && e2.second.value.Jump?
    requires e2 == js[k].(first := Jump(Opposite(js[k].first.op), 2, js[k].first.operand), second := Some(Jump(Jmp, e2.second.value.offset, 0)))
    requires |js2| == |js|
    requires forall i :: 0 <= i < |js| ==>
      js2[i] == js[k := e2][i].(address := ShiftAddr(js[k := e2][i].address, js[k].address + 1))
    ensures forall i :: 0 <= i < |js2| ==> EntryShape(js2[i]) && Derived(js2[i], origin[i]) && js2[i].labelId < labelCount
    ensures forall i :: 0 <= i < |js2| ==>
      js2[i].address == Bump(js[i].address, js[k].address + 1) &&
      (Extended(js2[i]) <==> Extended(js[i]) || i == k)
    ensures Unextended(js2) == Unextended(js) - 1
  {
    var js1 := js[k := e2];
    forall i | 0 <= i < |js|
      ensures js2[i].address == Bump(js[i].address, js[k].address + 1)
    {
      var x := js[i].address;
      assert (x + 1) % U32 == x + 1;
    }
    OppositeInvolution(js[k].first.op);
    assert EntryShape(e2) && Derived(e2, origin[k]);
    UnextendedExtend(js, k, e2);
    UnextendedSameStatus(js1, js2);
  }

  /**
   * Extending entry `k` into `e2` keeps every entry's shape, descent and
   * placement, lowers the count of unextended entries by one, adds one slot
   * that is not a word and keeps the final return at the end.
   */
  lemma ExtendKeepsLayout(code: seq<Slot>, js: seq<JumpEntry>, k: nat, e2: JumpEntry, origin: seq<JumpEntry>, labelCount: nat,
                          code2: seq<Slot>, js2: seq<JumpEntry>)
    requires Placed(code, js) && |js| == |origin| && |code| + Unextended(js) + 1 < U32
    requires forall i :: 0 <= i < |js| ==> EntryShape(js[i]) && Derived(js[i], origin[i]) && js[i].labelId < labelCount
    requires k < |js| && !Extended(js[k]) && js[k].first.Jump? && IsCondJump(js[k].first.op)
    requires e2.second.Some? && e2.second.value.Jump?
    requires e2 == js[k].(first := Jump(Opposite(js[k].first.op), 2, js[k].first.operand), second := Some(Jump(Jmp, e2.second.value.offset, 0)))
    requires code2 == code[..js[k].address + 1] + [Placeholder(k)] + code[js[k].address + 1..]
    requires |js2| == |js|
    requires forall i :: 0 <= i < |js| ==>
      js2[i] == js[k := e2][i].(address := ShiftAddr(js[k := e2][i].address, js[k].address + 1))
    ensures Placed(code2, js2) && |code2| + Unextended(js2) + 1 < U32
    ensures forall i :: 0 <= i < |js2| ==> EntryShape(js2[i]) && Derived(js2[i], origin[i]) && js2[i].labelId < labelCount
    ensures Unextended(js2) == Unextended(js) - 1 && |code2| == |code| + 1
    ensures WordsOf(code2) == WordsOf(code)
    ensures EndsWithReturn(code) ==> EndsWithReturn(code2)
  {
    var a := js[k].address + 1;
    assert forall i :: 0 <= i < |js| ==> js[i].address < |code|;
    ExtendKeepsEntries(js, k, e2, origin, labelCount, js2);
    InsertSlots(code, a, Placeholder(k), code2);
    assert ExtendedLayout(code, js, k, code2, js2);
    PlacedAfterExtend(code, js, k, code2, js2);
    WordsOfInsert(code, a, Placeholder(k));
    if EndsWithReturn(code) {
      var last := |code| - 1;
      assert code[js[k].address] == Placeholder(k) && code[last].Word?;
      assert code2[last + 1] == code[last];
    }
  }

  /**
   * The buffer `code` after the entries below `k` were copied into it: a
   * placeholder of such an entry becomes its instruction at its address and
   * its `JMP` right after.
   */
  ghost function Filled(code: seq<Slot>, js: seq<JumpEntry>, k: nat): (r: seq<Slot>)
    requires k <= |js|
    ensures |r| == |code|
  {
    seq(|code|, p requires 0 <= p < |code| =>
      if code[p].Placeholder? && code[p].index < k then
        var e := js[code[p].index];
        if p == e.address then e.first else if e.second.Some? then e.second.value else code[p]
      else code[p])
  }

  lemma FilledNone(code: seq<Slot>, js: seq<JumpEntry>)
    ensures Filled(code, js, 0) == code
  {
  }

  /** Copying entry `k` takes `Filled(.., k)` to `Filled(.., k + 1)`. */
  lemma FilledStep(code: seq<Slot>, js: seq<JumpEntry>, k: nat)
    requires Placed(code, js) && k < |js|
    ensures js[k].address < |code| && (Extended(js[k]) ==> js[k].address + 1 < |code|)
    ensures Filled(code, js, k + 1) ==
      if Extended(js[k]) then Filled(code, js, k)[js[k].address := js[k].first][js[k].address + 1 := js[k].second.value]
      else Filled(code, js, k)[js[k].address := js[k].first]
  {
    var e := js[k];
    var next := Filled(code, js, k + 1);
    var prev := Filled(code, js, k);
    var step := if Extended(e) then prev[e.address := e.first][e.address + 1 := e.second.value] else prev[e.address := e.first];
    forall p | 0 <= p < |code|
      ensures next[p] == step[p]
    {
      if code[p].Placeholder? && code[p].index == k {
        assert Owned(code, js, p);
      }
    }
  }

  /**
   * Once every entry is copied, each entry's address holds its instruction
   * (followed by its `JMP` once extended), no placeholder is left, and every
   * other slot is unchanged.
   */
  lemma FilledKeepsPlacement(code: seq<Slot>, js: seq<JumpEntry>)
    requires Placed(code, js)
    requires forall i :: 0 <= i < |js| ==> EntryShape(js[i])
    ensures Copied(Filled(code, js, |js|), js)
    ensures forall p :: 0 <= p < |code| && code[p].Placeholder? ==> Filled(code, js, |js|)[p].Jump?
    ensures forall p :: 0 <= p < |code| && !code[p].Placeholder? ==> Filled(code, js, |js|)[p] == code[p]
  {
    var r := Filled(code, js, |js|);
    forall p | 0 <= p < |code| && code[p].Placeholder?
      ensures r[p].Jump?
    {
      assert Owned(code, js, p);
      assert EntryShape(js[code[p].index]);
    }
    forall i | 0 <= i < |js|
      ensures r[js[i].address] == js[i].first
      ensures Extended(js[i]) ==> r[js[i].address + 1] == js[i].second.value
    {
      assert code[js[i].address] == Placeholder(i);
    }
  }

  /** The words of the buffer after the `RETNIL` step. */
  lemma RetNilWords(before: seq<Slot>, withRet: seq<Slot>)
    requires withRet == before + (if EndsWithReturn(before) then [] else [Word(RetNilWord)])
    ensures WordsOf(withRet) == WordsOf(before) + (if EndsWithReturn(before) then [] else [RetNilWord])
  {
    WordsOfConcat(before, if EndsWithReturn(before) then [] else [Word(RetNilWord)]);
    assert WordsOf([Word(RetNilWord)]) == [RetNilWord] by {
      var one := [Word(RetNilWord)];
      assert one[0] == Word(RetNilWord) && one[1..] == [];
      assert WordsOf(one) == [RetNilWord] + WordsOf(one[1..]);
    }
    assert before + [] == before;
  }

  /** Copying the filled entries of `js` into `filled` gives the code `finish` promises. */
  lemma CopiedCompiled(before: seq<Slot>, origin: seq<JumpEntry>, filled: seq<Slot>, js: seq<JumpEntry>, ls: seq<nat>)
    requires Placed(filled, js) && Shaped(js, origin, |ls|)
    requires forall i :: 0 <= i < |js| ==> Resolved(js[i], ls[js[i].labelId])
    requires WordsOf(filled) == WordsOf(before) + (if EndsWithReturn(before) then [] else [RetNilWord])
    requires EndsWithReturn(filled)
    requires |filled| + Unextended(js) == |before| + (if EndsWithReturn(before) then 0 else 1) + Unextended(origin)
    ensures Compiled(Filled(filled, js, |js|), before, origin, js, ls)
  {
    var code := Filled(filled, js, |js|);
    FilledKeepsPlacement(filled, js);
    forall p | 0 <= p < |code|
      ensures !code[p].Placeholder? && (filled[p].Word? || code[p].Word? ==> filled[p] == code[p])
    {
      if filled[p].Placeholder? {
        assert code[p].Jump?;
      } else {
        assert code[p] == filled[p];
      }
    }
    WordsOfSameWords(filled, code);
    assert EndsWithReturn(code) by {
      assert filled[|filled| - 1].Word?;
    }
  }

  // ----- the function object built by `finish` -----

  /**
   * What `zis_assembler_finish` puts in the new function object: the meta
   * data, the bytecode, the symbol table (indexed by symbol id) and the
   * constant table.
   */
  datatype Func = Func(meta: FuncObj.FuncMeta, code: seq<Slot>, symbols: seq<string>, constants: seq<Values.Value>)

  /** Symbol ids are consecutive from 0: `order` lists the symbols by id. */
  ghost predicate SymbolIds(symbols: map<string, nat>, order: seq<string>) {
    |symbols| == |order| &&
    (forall s :: s in symbols ==> symbols[s] < |order| && order[symbols[s]] == s) &&
    (forall i :: 0 <= i < |order| ==> order[i] in symbols && symbols[order[i]] == i)
  }

  /** Different symbols have different ids, and every id is below the number of symbols. */
  lemma SymbolIdsDistinct(symbols: map<string, nat>, order: seq<string>, s: string, t: string)
    requires SymbolIds(symbols, order) && s in symbols && t in symbols
    ensures symbols[s] < |symbols|
    ensures symbols[s] == symbols[t] <==> s == t
  {
  }

  /** Each entry's instruction is at its address, followed by its `JMP` once extended. */
  ghost predicate Copied(code: seq<Slot>, js: seq<JumpEntry>) {
    forall i :: 0 <= i < |js| ==>
      js[i].address < |code| && code[js[i].address] == js[i].first &&
      (Extended(js[i]) ==> js[i].address + 1 < |code| && code[js[i].address + 1] == js[i].second.value)
  }

  ghost predicate NoPlaceholder(code: seq<Slot>) {
    forall p :: 0 <= p < |code| ==> !code[p].Placeholder?
  }

  /**
   * The result of `finish` from the buffer `before` and the table `origin`
   * it started with: every jump is filled and copied to its address
   * (followed by its `JMP` once extended), no placeholder is left, the other
   * words are kept in order with a `RETNIL` added unless the code already
   * ended with a return, and the code grew by one word per extension.
   */
  ghost predicate Compiled(code: seq<Slot>, before: seq<Slot>, origin: seq<JumpEntry>, js: seq<JumpEntry>, ls: seq<nat>) {
    Shaped(js, origin, |ls|) &&
    (forall i :: 0 <= i < |js| ==> Resolved(js[i], ls[js[i].labelId])) &&
    Copied(code, js) && NoPlaceholder(code) &&
    WordsOf(code) == WordsOf(before) + (if EndsWithReturn(before) then [] else [RetNilWord]) &&
    EndsWithReturn(code) &&
    |code| == |before| + (if EndsWithReturn(before) then 0 else 1) + Unextended(origin) - Unextended(js)
  }

  datatype Pass = Done | Restart | Abort

  // ----- the assembler -----

  /** `struct zis_assembler`. */
  class Assembler {
    const instrBuffer: InstrBuffer
    const labelTable: LabelTable
    const jumpTable: JumpTable
    var constants: seq<Values.Value>
    /** `func_symbols`: symbol to id. */
    var symbols: map<string, nat>
    ghost var symbolOrder: seq<string>
    var meta: FuncObj.FuncMeta

    /** The tables themselves are well formed. */
    ghost predicate Tables()
      reads this, instrBuffer, labelTable, jumpTable
    {
      instrBuffer.Valid() && labelTable.Valid() && jumpTable.Valid() &&
      SymbolIds(symbols, symbolOrder)
    }

    /** The tables are well formed and every pending jump sits in the buffer as its placeholder. */
    ghost predicate Valid()
      reads this, instrBuffer, labelTable, jumpTable
    {
      Tables() &&
      Placed(instrBuffer.data, jumpTable.entries) &&
      (forall i :: 0 <= i < |jumpTable.entries| ==> EntryShape(jumpTable.entries[i]))
    }

    /** `zis_assembler_create`: everything empty, meta all zero. */
    constructor (w: Words.Width)
      ensures Valid() && fresh(instrBuffer) && fresh(labelTable) && fresh(jumpTable)
      ensures instrBuffer.data == [] && labelTable.labels == [] && jumpTable.entries == [] && jumpTable.width == w
      ensures constants == [] && symbols == map[] && meta == FuncObj.FuncMeta(0, 0, 0)
    {
      instrBuffer := new InstrBuffer();
      labelTable := new LabelTable();
      jumpTable := new JumpTable(w);
      constants := [];
      symbols := map[];
      symbolOrder := [];
      meta := FuncObj.FuncMeta(0, 0, 0);
    }

    /**
     * No entry is extended yet: only `finish` extends entries, and it clears
     * the tables before it returns.
     */
    ghost predicate Pending()
      reads this, jumpTable
    {
      forall i :: 0 <= i < |jumpTable.entries| ==> !Extended(jumpTable.entries[i])
    }

    /** `zis_assembler_clear`: empties every table and zeroes the meta data. */
    method Clear()
      requires Tables()
      modifies this, instrBuffer, labelTable, jumpTable
      ensures Valid()
      ensures instrBuffer.data == [] && labelTable.labels == [] && jumpTable.entries == []
      ensures constants == [] && symbols == map[] && meta == FuncObj.FuncMeta(0, 0, 0)
    {
      constants := [];
      symbols := map[];
      symbolOrder := [];
      instrBuffer.Clear();
      labelTable.Clear();
      jumpTable.Clear();
      meta := FuncObj.FuncMeta(0, 0, 0);
    }

    /** `zis_assembler_func_meta`: sets the meta data when one is given; returns the current one. */
    method FuncMeta(m: Option<FuncObj.FuncMeta>) returns (r: FuncObj.FuncMeta)
      modifies this
      ensures r == meta && meta == (if m.Some? then m.value else old(meta))
      ensures constants == old(constants) && symbols == old(symbols) && symbolOrder == old(symbolOrder)
    {
      if m.Some? {
        meta := m.value;
      }
      r := meta;
    }

    /** `zis_assembler_func_constant`: appends `v` and returns its index. */
    method FuncConstant(v: Values.Value) returns (n: nat)
      requires Valid()
      modifies this
      ensures Valid() && constants == old(constants) + [v] && n == |old(constants)| && constants[n] == v
      ensures symbols == old(symbols) && meta == old(meta)
    {
      n := |constants|;
      constants := constants + [v];
    }

    /** `zis_assembler_func_symbol`: the id of a known symbol, or the next id for a new one. */
    method FuncSymbol(name: string) returns (id: nat)
      requires Valid()
      modifies this
      ensures Valid() && name in symbols && symbols[name] == id
      ensures name in old(symbols) ==> id == old(symbols[name]) && symbols == old(symbols)
      ensures name !in old(symbols) ==> id == |old(symbols)| && symbols == old(symbols)[name := id]
      ensures constants == old(constants) && meta == old(meta)
    {
      if name in symbols {
        id := symbols[name];
      } else {
        id := |symbols|;
        symbols := symbols[name := id];
        symbolOrder := symbolOrder + [name];
      }
    }

    /** `zis_assembler_alloc_label`. */
    method AllocLabel() returns (id: nat)
      requires Valid()
      modifies labelTable
      ensures Valid() && id == |old(labelTable.labels)| && labelTable.labels == old(labelTable.labels) + [Unplaced]
    {
      id := labelTable.Alloc();
    }

    /** `zis_assembler_place_label`: the label's address becomes the current buffer length. */
    method PlaceLabel(id: nat) returns (r: nat)
      requires Valid() && id < |labelTable.labels| && |instrBuffer.data| < U32
      modifies labelTable
      ensures Valid() && r == id && labelTable.labels == old(labelTable.labels)[id := |instrBuffer.data|]
    {
      labelTable.Place(id, |instrBuffer.data|);
      r := id;
    }

    /** `zis_assembler_append` (and the `append_<format>` functions, which encode first). */
    method Append(w: Instr.Word)
      requires Valid()
      modifies instrBuffer
      ensures Valid() && instrBuffer.data == old(instrBuffer.data) + [Word(w)]
    {
      PlacedAppendWord(instrBuffer.data, jumpTable.entries, w);
      instrBuffer.Append(Word(w));
    }

    /**
     * `zis_assembler_append_jump_Asw`/`_AsBw`/`_AsBC`: records the jump with
     * offset 0 and its label, and appends a placeholder naming the entry.
     */
    method AppendJump(op: nat, labelId: nat, operand: nat)
      requires Valid() && IsJumpOp(op) && (op == Jmp ==> operand == 0)
      modifies instrBuffer, jumpTable
      ensures Valid()
      ensures jumpTable.entries == old(jumpTable.entries) + [JumpEntry(|old(instrBuffer.data)|, labelId, Jump(op, 0, operand), None)]
      ensures instrBuffer.data == old(instrBuffer.data) + [Placeholder(|old(jumpTable.entries)|)]
    {
      var addr := |instrBuffer.data|;
      PlacedAppendJump(instrBuffer.data, jumpTable.entries, JumpEntry(addr, labelId, Jump(op, 0, operand), None));
      var ji := jumpTable.Add(addr, Jump(op, 0, operand), labelId);
      instrBuffer.Append(Placeholder(ji));
    }

    // ----- finish -----

    /** What the fill passes keep: a valid assembler whose entries descend from `origin` and refer to known labels. */
    ghost predicate Fillable(origin: seq<JumpEntry>)
      reads this, instrBuffer, labelTable, jumpTable
    {
      Valid() && Shaped(jumpTable.entries, origin, |labelTable.labels|) &&
      |instrBuffer.data| + Unextended(jumpTable.entries) + 1 < U32
    }

    /** The first step of `zis_assembler_finish`: `RETNIL` unless the code ends with `RET`, `RETNIL` or `THR`. */
    method AppendRetNil()
      requires Valid()
      modifies instrBuffer
      ensures Valid()
      ensures instrBuffer.data == old(instrBuffer.data) + (if EndsWithReturn(old(instrBuffer.data)) then [] else [Word(RetNilWord)])
      ensures EndsWithReturn(instrBuffer.data)
    {
      var n := |instrBuffer.data|;
      if n > 0 && instrBuffer.data[n - 1].Word? && IsReturnOp(Instr.ExtractOpcode(instrBuffer.data[n - 1].w)) {
        return;
      }
      RetNilReturns();
      Append(RetNilWord);
    }

    /**
     * Extends entry `k`, whose offset does not fit in 9 bits: the inverted
     * jump skips 2 instructions, the `JMP` that follows carries the offset, a
     * placeholder for it goes right after the jump and every label and entry
     * above moves up.
     */
    method Extend(k: nat, off: int, ghost origin: seq<JumpEntry>)
      requires Fillable(origin) && k < |jumpTable.entries|
      requires !Extended(jumpTable.entries[k]) && IsCondJump(jumpTable.entries[k].first.op)
      modifies instrBuffer, labelTable, jumpTable
      ensures Fillable(origin)
      ensures Unextended(jumpTable.entries) == old(Unextended(jumpTable.entries)) - 1
      ensures |instrBuffer.data| == |old(instrBuffer.data)| + 1
      ensures WordsOf(instrBuffer.data) == WordsOf(old(instrBuffer.data))
      ensures EndsWithReturn(old(instrBuffer.data)) ==> EndsWithReturn(instrBuffer.data)
    {
      var e := jumpTable.entries[k];
      OppositeInvolution(e.first.op);
      var a := e.address + 1;
      ghost var code := instrBuffer.data;
      ghost var js := jumpTable.entries;
      var e2 := e.(first := Jump(Opposite(e.first.op), 2, e.first.operand), second := Some(Jump(Jmp, off, 0)));
      jumpTable.Set(k, e2);
      instrBuffer.Insert(a, Placeholder(k));
      labelTable.Shift(a);
      jumpTable.Shift(a);
      ExtendKeepsLayout(code, js, k, e2, origin, |labelTable.labels|, instrBuffer.data, jumpTable.entries);
    }

    /**
     * One pass of the fill loop of `zis_assembler_finish` over the jump
     * table: `Done` when every entry is filled, `Restart` after extending
     * one, `Abort` (the panic) when a 25-bit offset does not fit.
     */
    method FillPass(ghost origin: seq<JumpEntry>) returns (r: Pass)
      requires Fillable(origin)
      modifies instrBuffer, labelTable, jumpTable
      ensures r != Abort ==> Fillable(origin)
      ensures r == Done ==>
        instrBuffer.data == old(instrBuffer.data) && labelTable.labels == old(labelTable.labels) &&
        Unextended(jumpTable.entries) == old(Unextended(jumpTable.entries)) &&
        forall i :: 0 <= i < |jumpTable.entries| ==>
          Resolved(jumpTable.entries[i], labelTable.labels[jumpTable.entries[i].labelId])
      ensures r == Restart ==>
        Unextended(jumpTable.entries) == old(Unextended(jumpTable.entries)) - 1 &&
        |instrBuffer.data| == |old(instrBuffer.data)| + 1 &&
        WordsOf(instrBuffer.data) == WordsOf(old(instrBuffer.data)) &&
        (EndsWithReturn(old(instrBuffer.data)) ==> EndsWithReturn(instrBuffer.data))
      ensures r == Abort ==>
        exists i :: 0 <= i < |jumpTable.entries| && jumpTable.entries[i].labelId < |labelTable.labels| &&
          !InI25(JumpOffset(labelTable.labels[jumpTable.entries[i].labelId], jumpTable.entries[i].address))
    {
      ghost var js0 := jumpTable.entries;
      ghost var labels := labelTable.labels;
      var k := 0;
      while k < |jumpTable.entries|
        invariant 0 <= k <= |jumpTable.entries| == |js0|
        invariant unchanged(instrBuffer) && unchanged(labelTable)
        invariant jumpTable.Valid()
        invariant SameLayout(js0, jumpTable.entries) && Shaped(jumpTable.entries, origin, |labels|)
        invariant ResolvedBelow(jumpTable.entries, labels, k)
      {
        var e := jumpTable.entries[k];
        assert EntryShape(e) && Derived(e, origin[k]) && e.labelId < |labels|;
        var off := JumpOffset(labelTable.labels[e.labelId], e.address);
        var e2;
        if e.first.op == Jmp {
          if !InI25(off) {
            return Abort;
          }
          e2 := e.(first := Jump(Jmp, off, 0));
        } else if e.second.None? {
          if !InI9(off) {
            LayoutKeepsPlacement(instrBuffer.data, js0, jumpTable.entries);
            Extend(k, off, origin);
            return Restart;
          }
          e2 := e.(first := e.first.(offset := off));
        } else {
          if !InI25(off) {
            return Abort;
          }
          e2 := e.(second := Some(Jump(Jmp, off, 0)));
        }
        FillEntry(js0, jumpTable.entries, origin, labels, k, e2);
        jumpTable.Set(k, e2);
        k := k + 1;
      }
      LayoutKeepsPlacement(instrBuffer.data, js0, jumpTable.entries);
      return Done;
    }

    /**
     * The restartable fill of `zis_assembler_finish`: passes until one goes
     * through. Each restart extends one more entry and no entry is extended
     * twice, so the number of unextended entries bounds the restarts.
     */
    method FillJumps(ghost origin: seq<JumpEntry>) returns (ok: bool)
      requires Fillable(origin)
      modifies instrBuffer, labelTable, jumpTable
      ensures ok ==>
        Fillable(origin) &&
        (forall i :: 0 <= i < |jumpTable.entries| ==>
          Resolved(jumpTable.entries[i], labelTable.labels[jumpTable.entries[i].labelId])) &&
        |instrBuffer.data| + Unextended(jumpTable.entries) == |old(instrBuffer.data)| + old(Unextended(jumpTable.entries)) &&
        WordsOf(instrBuffer.data) == WordsOf(old(instrBuffer.data)) &&
        (EndsWithReturn(old(instrBuffer.data)) ==> EndsWithReturn(instrBuffer.data))
      ensures !ok ==>
        exists i :: 0 <= i < |jumpTable.entries| && jumpTable.entries[i].labelId < |labelTable.labels| &&
          !InI25(JumpOffset(labelTable.labels[jumpTable.entries[i].labelId], jumpTable.entries[i].address))
    {
      while true
        invariant Fillable(origin)
        invariant |instrBuffer.data| + Unextended(jumpTable.entries) == |old(instrBuffer.data)| + old(Unextended(jumpTable.entries))
        invariant WordsOf(instrBuffer.data) == WordsOf(old(instrBuffer.data))
        invariant EndsWithReturn(old(instrBuffer.data)) ==> EndsWithReturn(instrBuffer.data)
        decreases Unextended(jumpTable.entries)
      {
        var r := FillPass(origin);
        if r == Done {
          return true;
        } else if r == Abort {
          return false;
        }
      }
    }

    /**
     * The copy loop of `zis_assembler_finish`: each entry's instruction goes
     * to its address, and its `JMP` to the next one once extended.
     */
    method CopyBack()
      requires Valid()
      modifies instrBuffer
      ensures Tables() && instrBuffer.data == Filled(old(instrBuffer.data), jumpTable.entries, |jumpTable.entries|)
    {
      ghost var code := instrBuffer.data;
      ghost var js := jumpTable.entries;
      FilledNone(code, js);
      var k := 0;
      while k < |jumpTable.entries|
        invariant 0 <= k <= |js| && jumpTable.entries == js
        invariant instrBuffer.Valid() && instrBuffer.data == Filled(code, js, k)
      {
        var e := jumpTable.entries[k];
        FilledStep(code, js, k);
        instrBuffer.Set(e.address, e.first);
        if e.second.Some? {
          instrBuffer.Set(e.address + 1, e.second.value);
        }
        k := k + 1;
      }
    }

    /** `_as_finish_id_map_to_slots` over the symbol map: the table of symbols indexed by id. */
    method SymbolSlots() returns (tbl: seq<string>)
      requires SymbolIds(symbols, symbolOrder)
      ensures tbl == symbolOrder
    {
      tbl := seq(|symbols|, (_: int) => "");
      var keys := symbols.Keys;
      while keys != {}
        invariant keys <= symbols.Keys && |tbl| == |symbolOrder|
        invariant forall i :: 0 <= i < |tbl| ==> symbolOrder[i] in keys || tbl[i] == symbolOrder[i]
        decreases |keys|
      {
        var s :| s in keys;
        tbl := tbl[symbols[s] := s];
        keys := keys - {s};
      }
    }

    /**
     * `zis_assembler_finish`: the function built from the assembled code,
     * its meta data, symbols and constants, after which the assembler is
     * cleared; `None` for the panic on a jump too far for 25 bits.
     */
    method Finish() returns (r: Option<Func>, ghost js: seq<JumpEntry>, ghost ls: seq<nat>)
      requires Valid() && Pending()
      requires forall i :: 0 <= i < |jumpTable.entries| ==> jumpTable.entries[i].labelId < |labelTable.labels|
      requires |instrBuffer.data| + |jumpTable.entries| + 2 < U32
      modifies this, instrBuffer, labelTable, jumpTable
      ensures r.Some? ==>
        Compiled(r.value.code, old(instrBuffer.data), old(jumpTable.entries), js, ls) &&
        r.value.meta == old(meta) && r.value.symbols == old(symbolOrder) && r.value.constants == old(constants)
      ensures r.Some? ==>
        Valid() && instrBuffer.data == [] && labelTable.labels == [] && jumpTable.entries == [] &&
        constants == [] && symbols == map[] && meta == FuncObj.FuncMeta(0, 0, 0)
      ensures r.None? ==>
        exists i :: 0 <= i < |js| && js[i].labelId < |ls| && !InI25(JumpOffset(ls[js[i].labelId], js[i].address))
    {
      ghost var before := instrBuffer.data;
      ghost var origin := jumpTable.entries;
      AppendRetNil();
      ghost var withRet := instrBuffer.data;
      assert Shaped(origin, origin, |labelTable.labels|) by {
        forall i | 0 <= i < |origin|
          ensures Derived(origin[i], origin[i])
        {
          assert EntryShape(origin[i]) && !Extended(origin[i]);
        }
      }
      var ok := FillJumps(origin);
      js := jumpTable.entries;
      ls := labelTable.labels;
      if !ok {
        return None, js, ls;
      }
      ghost var filled := instrBuffer.data;
      CopyBack();
      var code := instrBuffer.data;
      RetNilWords(before, withRet);
      CopiedCompiled(before, origin, filled, js, ls);
      var syms := SymbolSlots();
      r := Some(Func(meta, code, syms, constants));
      Clear();
    }
  }
}
