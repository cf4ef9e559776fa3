/**
 * The name tables of the assembler (core/assembly.c): the opcode mnemonics
 * sorted by name with their opcodes (`op_names_sorted` and
 * `op_names_sorted_code_table`, generated from `ZIS_OP_LIST_FULL` in
 * src/core/oplist.h), the pseudo-operation names, the binary search
 * `opcode_from_name`, the linear search `pseudo_from_name`, and the
 * table of opposite conditional jumps.
 */
module AsmNames {

  /** `ZIS_OP_LIST_LEN`: the number of defined opcodes, which the search covers. */
  const OpCount: nat := 67

  /**
   * `op_names_sorted[i]`: the defined mnemonics in `strcmp` order, then
   * the empty names of the undefined opcodes (the table ends at 128).
   */
  function OpName(i: nat): string
  {
    match i
    case 0 => "ADD"
    case 1 => "ARG"
    case 2 => "BITAND"
    case 3 => "BITNOT"
    case 4 => "BITOR"
    case 5 => "BITXOR"
    case 6 => "BRK"
    case 7 => "CALL"
    case 8 => "CALLP"
    case 9 => "CALLV"
    case 10 => "CMP"
    case 11 => "CMPEQ"
    case 12 => "CMPGE"
    case 13 => "CMPGT"
    case 14 => "CMPLE"
    case 15 => "CMPLT"
    case 16 => "CMPNE"
    case 17 => "DIV"
    case 18 => "IMP"
    case 19 => "IMPSUB"
    case 20 => "JMP"
    case 21 => "JMPEQ"
    case 22 => "JMPF"
    case 23 => "JMPGE"
    case 24 => "JMPGT"
    case 25 => "JMPLE"
    case 26 => "JMPLT"
    case 27 => "JMPNE"
    case 28 => "JMPT"
    case 29 => "LDBLN"
    case 30 => "LDCON"
    case 31 => "LDELM"
    case 32 => "LDELMI"
    case 33 => "LDFLDX"
    case 34 => "LDFLDY"
    case 35 => "LDGLB"
    case 36 => "LDGLBX"
    case 37 => "LDLOC"
    case 38 => "LDMTH"
    case 39 => "LDNIL"
    case 40 => "LDSYM"
    case 41 => "MKARR"
    case 42 => "MKFLT"
    case 43 => "MKINT"
    case 44 => "MKMAP"
    case 45 => "MKRNG"
    case 46 => "MKRNGX"
    case 47 => "MKTUP"
    case 48 => "MUL"
    case 49 => "NEG"
    case 50 => "NOP"
    case 51 => "NOT"
    case 52 => "POW"
    case 53 => "REM"
    case 54 => "RET"
    case 55 => "RETNIL"
    case 56 => "SHL"
    case 57 => "SHR"
    case 58 => "STELM"
    case 59 => "STELMI"
    case 60 => "STFLDX"
    case 61 => "STFLDY"
    case 62 => "STGLB"
    case 63 => "STGLBX"
    case 64 => "STLOC"
    case 65 => "SUB"
    case 66 => "THR"
    case _ => ""
  }

  /** `op_names_sorted_code_table[i]` for the defined mnemonics. */
  function OpCode(i: nat): nat
    requires i < OpCount
  {
    match i
    case 0 => 0x38
    case 1 => 0x01
    case 2 => 0x40
    case 3 => 0x46
    case 4 => 0x41
    case 5 => 0x42
    case 6 => 0x03
    case 7 => 0x13
    case 8 => 0x16
    case 9 => 0x15
    case 10 => 0x31
    case 11 => 0x34
    case 12 => 0x36
    case 13 => 0x35
    case 14 => 0x32
    case 15 => 0x33
    case 16 => 0x37
    case 17 => 0x3b
    case 18 => 0x18
    case 19 => 0x19
    case 20 => 0x28
    case 21 => 0x2d
    case 22 => 0x2a
    case 23 => 0x2f
    case 24 => 0x2e
    case 25 => 0x2b
    case 26 => 0x2c
    case 27 => 0x30
    case 28 => 0x29
    case 29 => 0x05
    case 30 => 0x06
    case 31 => 0x24
    case 32 => 0x26
    case 33 => 0x22
    case 34 => 0x20
    case 35 => 0x1c
    case 36 => 0x1e
    case 37 => 0x1a
    case 38 => 0x17
    case 39 => 0x04
    case 40 => 0x07
    case 41 => 0x0b
    case 42 => 0x09
    case 43 => 0x08
    case 44 => 0x0c
    case 45 => 0x0d
    case 46 => 0x0e
    case 47 => 0x0a
    case 48 => 0x3a
    case 49 => 0x45
    case 50 => 0x00
    case 51 => 0x44
    case 52 => 0x3d
    case 53 => 0x3c
    case 54 => 0x12
    case 55 => 0x11
    case 56 => 0x3e
    case 57 => 0x3f
    case 58 => 0x25
    case 59 => 0x27
    case 60 => 0x23
    case 61 => 0x21
    case 62 => 0x1d
    case 63 => 0x1f
    case 64 => 0x1b
    case 65 => 0x39
    case _ => 0x10
  }

  /** The opcodes the assembler itself refers to (`ZIS_OPC_*`). */
  const Thr: nat := 0x10
  const RetNil: nat := 0x11
  const Ret: nat := 0x12
  const Jmp: nat := 0x28
  const JmpT: nat := 0x29
  const JmpF: nat := 0x2a
  const JmpLE: nat := 0x2b
  const JmpLT: nat := 0x2c
  const JmpEQ: nat := 0x2d
  const JmpGT: nat := 0x2e
  const JmpGE: nat := 0x2f
  const JmpNE: nat := 0x30

  /** `pseudo_names`: the index is the `enum pseudo_opcode` value. */
  const PseudoNames: seq<string> := ["END", "FUNC", "TYPE", "CONST", "SYM"]
  const PseudoEnd: nat := 0
  const PseudoFunc: nat := 1
  const PseudoType: nat := 2
  const PseudoConst: nat := 3
  const PseudoSym: nat := 4

  // ----- strcmp order -----

  /** `strcmp(a, b) < 0`: `a` comes first in byte order, a proper prefix first. */
  predicate Below(a: string, b: string)
    decreases |a|
  {
    |b| > 0 && (|a| == 0 || a[0] < b[0] || (a[0] == b[0] && Below(a[1..], b[1..])))
  }

  lemma {:induction false} BelowIrreflexive(a: string)
    ensures !Below(a, a)
    decreases |a|
  {
    if |a| > 0 {
      BelowIrreflexive(a[1..]);
    }
  }

  lemma {:induction false} BelowTransitive(a: string, b: string, c: string)
    requires Below(a, b) && Below(b, c)
    ensures Below(a, c)
    decreases |a|
  {
    if |a| > 0 && a[0] == b[0] && b[0] == c[0] {
      BelowTransitive(a[1..], b[1..], c[1..]);
    }
  }

  /** Two different strings compare one way or the other: `strcmp` is 0 only on equal strings. */
  lemma {:induction false} BelowTotal(a: string, b: string)
    requires a != b
    ensures Below(a, b) || Below(b, a)
    decreases |a|
  {
    if |a| > 0 && |b| > 0 && a[0] == b[0] {
      assert a == [a[0]] + a[1..] && b == [b[0]] + b[1..];
      BelowTotal(a[1..], b[1..]);
    }
  }

  // ----- the mnemonic table is sorted -----

  // One lemma per neighbouring pair: each compares two literal names.

  lemma Ordered0()
    ensures Below(OpName(0), OpName(1))
  {
  }

  lemma Ordered1()
    ensures Below(OpName(1), OpName(2))
  {
  }

  lemma Ordered2()
    ensures Below(OpName(2), OpName(3))
  {
  }

  lemma Ordered3()
    ensures Below(OpName(3), OpName(4))
  {
  }

  lemma Ordered4()
    ensures Below(OpName(4), OpName(5))
  {
  }

  lemma Ordered5()
    ensures Below(OpName(5), OpName(6))
  {
  }

  lemma Ordered6()
    ensures Below(OpName(6), OpName(7))
  {
  }

  lemma Ordered7()
    ensures Below(OpName(7), OpName(8))
  {
  }

  lemma Ordered8()
    ensures Below(OpName(8), OpName(9))
  {
  }

  lemma Ordered9()
    ensures Below(OpName(9), OpName(10))
  {
  }

  lemma Ordered10()
    ensures Below(OpName(10), OpName(11))
  {
  }

  lemma Ordered11()
    ensures Below(OpName(11), OpName(12))
  {
  }

  lemma Ordered12()
    ensures Below(OpName(12), OpName(13))
  {
  }

  lemma Ordered13()
    ensures Below(OpName(13), OpName(14))
  {
  }

  lemma Ordered14()
    ensures Below(OpName(14), OpName(15))
  {
  }

  lemma Ordered15()
    ensures Below(OpName(15), OpName(16))
  {
  }

  lemma Ordered16()
    ensures Below(OpName(16), OpName(17))
  {
  }

  lemma Ordered17()
    ensures Below(OpName(17), OpName(18))
  {
  }

  lemma Ordered18()
    ensures Below(OpName(18), OpName(19))
  {
  }

  lemma Ordered19()
    ensures Below(OpName(19), OpName(20))
  {
  }

  lemma Ordered20()
    ensures Below(OpName(20), OpName(21))
  {
  }

  lemma Ordered21()
    ensures Below(OpName(21), OpName(22))
  {
  }

  lemma Ordered22()
    ensures Below(OpName(22), OpName(23))
  {
  }

  lemma Ordered23()
    ensures Below(OpName(23), OpName(24))
  {
  }

  lemma Ordered24()
    ensures Below(OpName(24), OpName(25))
  {
  }

  lemma Ordered25()
    ensures Below(OpName(25), OpName(26))
  {
  }

  lemma Ordered26()
    ensures Below(OpName(26), OpName(27))
  {
  }

  lemma Ordered27()
    ensures Below(OpName(27), OpName(28))
  {
  }

  lemma Ordered28()
    ensures Below(OpName(28), OpName(29))
  {
  }

  lemma Ordered29()
    ensures Below(OpName(29), OpName(30))
  {
  }

  lemma Ordered30()
    ensures Below(OpName(30), OpName(31))
  {
  }

  lemma Ordered31()
    ensures Below(OpName(31), OpName(32))
  {
  }

  lemma Ordered32()
    ensures Below(OpName(32), OpName(33))
  {
  }

  lemma Ordered33()
    ensures Below(OpName(33), OpName(34))
  {
  }

  lemma Ordered34()
    ensures Below(OpName(34), OpName(35))
  {
  }

  lemma Ordered35()
    ensures Below(OpName(35), OpName(36))
  {
  }

  lemma Ordered36()
    ensures Below(OpName(36), OpName(37))
  {
  }

  lemma Ordered37()
    ensures Below(OpName(37), OpName(38))
  {
  }

  lemma Ordered38()
    ensures Below(OpName(38), OpName(39))
  {
  }

  lemma Ordered39()
    ensures Below(OpName(39), OpName(40))
  {
  }

  lemma Ordered40()
    ensures Below(OpName(40), OpName(41))
  {
  }

  lemma Ordered41()
    ensures Below(OpName(41), OpName(42))
  {
  }

  lemma Ordered42()
    ensures Below(OpName(42), OpName(43))
  {
  }

  lemma Ordered43()
    ensures Below(OpName(43), OpName(44))
  {
  }

  lemma Ordered44()
    ensures Below(OpName(44), OpName(45))
  {
  }

  lemma Ordered45()
    ensures Below(OpName(45), OpName(46))
  {
  }

  lemma Ordered46()
    ensures Below(OpName(46), OpName(47))
  {
  }

  lemma Ordered47()
    ensures Below(OpName(47), OpName(48))
  {
  }

  lemma Ordered48()
    ensures Below(OpName(48), OpName(49))
  {
  }

  lemma Ordered49()
    ensures Below(OpName(49), OpName(50))
  {
  }

  lemma Ordered50()
    ensures Below(OpName(50), OpName(51))
  {
  }

  lemma Ordered51()
    ensures Below(OpName(51), OpName(52))
  {
  }

  lemma Ordered52()
    ensures Below(OpName(52), OpName(53))
  {
  }

  lemma Ordered53()
    ensures Below(OpName(53), OpName(54))
  {
  }

  lemma Ordered54()
    ensures Below(OpName(54), OpName(55))
  {
  }

  lemma Ordered55()
    ensures Below(OpName(55), OpName(56))
  {
  }

  lemma Ordered56()
    ensures Below(OpName(56), OpName(57))
  {
  }

  lemma Ordered57()
    ensures Below(OpName(57), OpName(58))
  {
  }

  lemma Ordered58()
    ensures Below(OpName(58), OpName(59))
  {
  }

  lemma Ordered59()
    ensures Below(OpName(59), OpName(60))
  {
  }

  lemma Ordered60()
    ensures Below(OpName(60), OpName(61))
  {
  }

  lemma Ordered61()
    ensures Below(OpName(61), OpName(62))
  {
  }

  lemma Ordered62()
    ensures Below(OpName(62), OpName(63))
  {
  }

  lemma Ordered63()
    ensures Below(OpName(63), OpName(64))
  {
  }

  lemma Ordered64()
    ensures Below(OpName(64), OpName(65))
  {
  }

  lemma Ordered65()
    ensures Below(OpName(65), OpName(66))
  {
  }

  lemma AdjacentBelow0(k: nat)
    requires 0 <= k < 11
    ensures Below(OpName(k), OpName(k + 1))
  {
    if k == 0 {
      Ordered0();
    } else if k == 1 {
      Ordered1();
    } else if k == 2 {
      Ordered2();
    } else if k == 3 {
      Ordered3();
    } else if k == 4 {
      Ordered4();
    } else if k == 5 {
      Ordered5();
    } else if k == 6 {
      Ordered6();
    } else if k == 7 {
      Ordered7();
    } else if k == 8 {
      Ordered8();
    } else if k == 9 {
      Ordered9();
    } else {
      Ordered10();
    }
  }

  lemma AdjacentBelow11(k: nat)
    requires 11 <= k < 22
    ensures Below(OpName(k), OpName(k + 1))
  {
    if k == 11 {
      Ordered11();
    } else if k == 12 {
      Ordered12();
    } else if k == 13 {
      Ordered13();
    } else if k == 14 {
      Ordered14();
    } else if k == 15 {
      Ordered15();
    } else if k == 16 {
      Ordered16();
    } else if k == 17 {
      Ordered17();
    } else if k == 18 {
      Ordered18();
    } else if k == 19 {
      Ordered19();
    } else if k == 20 {
      Ordered20();
    } else {
      Ordered21();
    }
  }

  lemma AdjacentBelow22(k: nat)
    requires 22 <= k < 33
    ensures Below(OpName(k), OpName(k + 1))
  {
    if k == 22 {
      Ordered22();
    } else if k == 23 {
      Ordered23();
    } else if k == 24 {
      Ordered24();
    } else if k == 25 {
      Ordered25();
    } else if k == 26 {
      Ordered26();
    } else if k == 27 {
      Ordered27();
    } else if k == 28 {
      Ordered28();
    } else if k == 29 {
      Ordered29();
    } else if k == 30 {
      Ordered30();
    } else if k == 31 {
      Ordered31();
    } else {
      Ordered32();
    }
  }

  lemma AdjacentBelow33(k: nat)
    requires 33 <= k < 44
    ensures Below(OpName(k), OpName(k + 1))
  {
    if k == 33 {
      Ordered33();
    } else if k == 34 {
      Ordered34();
    } else if k == 35 {
      Ordered35();
    } else if k == 36 {
      Ordered36();
    } else if k == 37 {
      Ordered37();
    } else if k == 38 {
      Ordered38();
    } else if k == 39 {
      Ordered39();
    } else if k == 40 {
      Ordered40();
    } else if k == 41 {
      Ordered41();
    } else if k == 42 {
      Ordered42();
    } else {
      Ordered43();
    }
  }

  lemma AdjacentBelow44(k: nat)
    requires 44 <= k < 55
    ensures Below(OpName(k), OpName(k + 1))
  {
    if k == 44 {
      Ordered44();
    } else if k == 45 {
      Ordered45();
    } else if k == 46 {
      Ordered46();
    } else if k == 47 {
      Ordered47();
    } else if k == 48 {
      Ordered48();
    } else if k == 49 {
      Ordered49();
    } else if k == 50 {
      Ordered50();
    } else if k == 51 {
      Ordered51();
    } else if k == 52 {
      Ordered52();
    } else if k == 53 {
      Ordered53();
    } else {
      Ordered54();
    }
  }

  lemma AdjacentBelow55(k: nat)
    requires 55 <= k < 66
    ensures Below(OpName(k), OpName(k + 1))
  {
    if k == 55 {
      Ordered55();
    } else if k == 56 {
      Ordered56();
    } else if k == 57 {
      Ordered57();
    } else if k == 58 {
      Ordered58();
    } else if k == 59 {
      Ordered59();
    } else if k == 60 {
      Ordered60();
    } else if k == 61 {
      Ordered61();
    } else if k == 62 {
      Ordered62();
    } else if k == 63 {
      Ordered63();
    } else if k == 64 {
      Ordered64();
    } else {
      Ordered65();
    }
  }

  /** Each defined mnemonic is below the next one. */
  lemma AdjacentBelow(k: nat)
    requires k + 1 < OpCount
    ensures Below(OpName(k), OpName(k + 1))
  {
    if k < 11 {
      AdjacentBelow0(k);
    } else if k < 22 {
      AdjacentBelow11(k);
    } else if k < 33 {
      AdjacentBelow22(k);
    } else if k < 44 {
      AdjacentBelow33(k);
    } else if k < 55 {
      AdjacentBelow44(k);
    } else {
      AdjacentBelow55(k);
    }
  }

  /** A sequence whose neighbours are in order is in order. */
  lemma {:induction false} ChainSorted(f: nat -> string, k: nat, n: nat)
    requires k <= n
    requires forall i :: k <= i && i + 1 < n ==> Below(f(i), f(i + 1))
    ensures forall i, j :: k <= i < j < n ==> Below(f(i), f(j))
    decreases n - k
  {
    if k + 1 < n {
      ChainSorted(f, k + 1, n);
      forall j | k + 1 < j < n
        ensures Below(f(k), f(j))
      {
        BelowTransitive(f(k), f(k + 1), f(j));
      }
    }
  }

  /** Every defined mnemonic is below every later one. */
  ghost predicate Sorted() {
    forall i, j :: 0 <= i < j < OpCount ==> Below(OpName(i), OpName(j))
  }

  /** `op_names_sorted` is sorted on its defined part, as the binary search needs. */
  lemma OpNamesSorted()
    ensures Sorted()
  {
    forall i | 0 <= i && i + 1 < OpCount
      ensures Below(OpName(i), OpName(i + 1))
    {
      AdjacentBelow(i);
    }
    ChainSorted(OpName, 0, OpCount);
  }

  /** The defined mnemonics are pairwise different. */
  lemma OpNamesDistinct(i: nat, j: nat)
    requires i < OpCount && j < OpCount && i != j
    ensures OpName(i) != OpName(j)
  {
    OpNamesSorted();
    if i < j {
      BelowIrreflexive(OpName(i));
    } else {
      BelowIrreflexive(OpName(j));
    }
  }

  // ----- lookups -----

  /** The index of the first defined mnemonic from `i` on equal to `name`, or -1. */
  function FindOp(name: string, i: nat): (r: int)
    ensures -1 <= r < OpCount
    ensures r >= 0 ==> i <= r && OpName(r) == name
    ensures r == -1 <==> forall k :: i <= k < OpCount ==> OpName(k) != name
    decreases OpCount - i
  {
    if i >= OpCount then -1 else if OpName(i) == name then i else FindOp(name, i + 1)
  }

  /** The opcode named `name`, or -1: what a linear scan of the table finds. */
  function OpcodeOf(name: string): int {
    var k := FindOp(name, 0);
    if k == -1 then -1 else OpCode(k)
  }

  /** Each defined mnemonic names its own opcode. */
  lemma OpcodeOfName(i: nat)
    requires i < OpCount
    ensures OpcodeOf(OpName(i)) == OpCode(i)
  {
    var k := FindOp(OpName(i), 0);
    if k != i {
      OpNamesDistinct(k, i);
    }
  }

  /**
   * `opcode_from_name`: a binary search over the sorted mnemonics; the
   * upper index is a `size_t` compared as `intptr_t`, so stepping below 0
   * ends the search. Finds what the linear scan finds.
   */
  method OpcodeFromName(name: string) returns (r: int)
    ensures r == OpcodeOf(name)
  {
    OpNamesSorted();
    var lo: int := 0;
    var hi: int := OpCount - 1;
    while true
      invariant 0 <= lo <= hi < OpCount
      invariant forall k :: 0 <= k < OpCount && OpName(k) == name ==> lo <= k <= hi
      decreases hi - lo
    {
      var mid := lo + (hi - lo) / 2;
      var s := OpName(mid);
      if s == name {
        OpcodeOfName(mid);
        return OpCode(mid);
      }
      if Below(s, name) {
        forall k | 0 <= k <= mid
          ensures OpName(k) != name
        {
          if k < mid {
            BelowTransitive(OpName(k), s, name);
          }
          BelowIrreflexive(name);
        }
        lo := mid + 1;
      } else {
        BelowTotal(s, name);
        forall k | mid <= k < OpCount
          ensures OpName(k) != name
        {
          if mid < k {
            BelowTransitive(name, s, OpName(k));
          }
          BelowIrreflexive(name);
        }
        hi := mid - 1;
      }
      if lo > hi {
        break;
      }
    }
    return -1;
  }

  /** The index of `name` among the pseudo-operation names, or -1. */
  function PseudoOf(name: string): (r: int)
    ensures -1 <= r < |PseudoNames|
    ensures r >= 0 ==> PseudoNames[r] == name
    ensures r == -1 <==> name !in PseudoNames
  {
    if name == "END" then 0
    else if name == "FUNC" then 1
    else if name == "TYPE" then 2
    else if name == "CONST" then 3
    else if name == "SYM" then 4
    else -1
  }

  /** `pseudo_from_name`: a scan of the pseudo-operation names. */
  method PseudoFromName(name: string) returns (r: int)
    ensures r == PseudoOf(name)
  {
    for i := 0 to |PseudoNames|
      invariant name !in PseudoNames[..i]
    {
      if PseudoNames[i] == name {
        return i;
      }
    }
    assert PseudoNames[..|PseudoNames|] == PseudoNames;
    return -1;
  }

  // ----- opposite jumps -----

  /** The conditional jumps, `JMPT` to `JMPNE`: the opcodes right after `JMP`. */
  predicate IsCondJump(op: nat) {
    JmpT <= op <= JmpNE
  }

  /** `_opposite_jump_instr_table`, indexed by `op - JMP - 1`. */
  const OppositeTable: seq<nat> := [JmpF, JmpT, JmpGT, JmpGE, JmpNE, JmpLE, JmpLT, JmpEQ]

  /** `_as_finish_opposite_jump_instr`: the jump taken exactly when `op` is not. */
  function Opposite(op: nat): nat
    requires IsCondJump(op)
  {
    OppositeTable[op - Jmp - 1]
  }

  /** Negating a conditional jump gives a different conditional jump, and negating twice gives the jump back. */
  lemma OppositeInvolution(op: nat)
    requires IsCondJump(op)
    ensures IsCondJump(Opposite(op)) && Opposite(op) != op && Opposite(Opposite(op)) == op
  {
  }
}
