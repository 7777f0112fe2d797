/** The MIPS I opcode numbering and the instruction decoder with its validity bitmap. */
module Opcodes {
  import opened Bits

  // Main opcode field.
  const SPECIAL := 0x00
  const REGIMM := 0x01
  const J := 0x02
  const JAL := 0x03
  const BEQ := 0x04
  const BNE := 0x05
  const BLEZ := 0x06
  const BGTZ := 0x07
  const ADDI := 0x08
  const ADDIU := 0x09
  const SLTI := 0x0A
  const SLTIU := 0x0B
  const ANDI := 0x0C
  const ORI := 0x0D
  const XORI := 0x0E
  const LUI := 0x0F
  const LB := 0x20
  const LH := 0x21
  const LWL := 0x22
  const LW := 0x23
  const LBU := 0x24
  const LHU := 0x25
  const LWR := 0x26
  const SB := 0x28
  const SH := 0x29
  const SWL := 0x2A
  const SW := 0x2B
  const SWR := 0x2E

  // Function field of SPECIAL, plus 0x40.
  const SLL := 0x40
  const SRL := 0x42
  const SRA := 0x43
  const SLLV := 0x44
  const SRLV := 0x46
  const SRAV := 0x47
  const JR := 0x48
  const JALR := 0x49
  const SYSCALL := 0x4C
  const BREAK := 0x4D
  const MFHI := 0x50
  const MTHI := 0x51
  const MFLO := 0x52
  const MTLO := 0x53
  const MULT := 0x58
  const MULTU := 0x59
  const DIV := 0x5A
  const DIVU := 0x5B
  const ADD := 0x60
  const ADDU := 0x61
  const SUB := 0x62
  const SUBU := 0x63
  const AND := 0x64
  const OR := 0x65
  const XOR := 0x66
  const NOR := 0x67
  const SLT := 0x6A
  const SLTU := 0x6B

  // RT field of REGIMM, plus 0x80.
  const BLTZ := 0x80
  const BGEZ := 0x81
  const BLTZAL := 0x90
  const BGEZAL := 0x91

  const MAIN_OPCODES := [
    SPECIAL, REGIMM, J, JAL, BEQ, BNE, BLEZ, BGTZ, ADDI, ADDIU, SLTI, SLTIU, ANDI, ORI, XORI, LUI]
  const MEMORY_OPCODES := [LB, LH, LWL, LW, LBU, LHU, LWR, SB, SH, SWL, SW, SWR]
  const SHIFT_OPCODES := [SLL, SRL, SRA, SLLV, SRLV, SRAV, JR, JALR, SYSCALL, BREAK]
  const HILO_OPCODES := [MFHI, MTHI, MFLO, MTLO, MULT, MULTU, DIV, DIVU]
  const ALU_OPCODES := [ADD, ADDU, SUB, SUBU, AND, OR, XOR, NOR, SLT, SLTU]
  const REGIMM_OPCODES := [BLTZ, BGEZ, BLTZAL, BGEZAL]

  const OPCODE_LIST: seq<int> :=
    MAIN_OPCODES + MEMORY_OPCODES + SHIFT_OPCODES + HILO_OPCODES + ALU_OPCODES + REGIMM_OPCODES

  /** The opcode numbers of MIPS I, by range. */
  predicate IsOpcode(n: int) {
    || 0x00 <= n <= 0x0F || 0x20 <= n <= 0x26 || 0x28 <= n <= 0x2B || n == 0x2E
    || n == 0x40 || n == 0x42 || n == 0x43 || n == 0x44 || 0x46 <= n <= 0x49 || n == 0x4C || n == 0x4D
    || 0x50 <= n <= 0x53 || 0x58 <= n <= 0x5B || 0x60 <= n <= 0x67 || n == 0x6A || n == 0x6B
    || n == 0x80 || n == 0x81 || n == 0x90 || n == 0x91
  }

  lemma ListIsOpcodes(n: int)
    ensures n in OPCODE_LIST <==> IsOpcode(n)
  {
  }

  // ----- Instruction fields -----

  function FieldRs(insn: Word): (i: nat) ensures i < 32 { insn / 0x20_0000 % 32 }
  function FieldRt(insn: Word): (i: nat) ensures i < 32 { insn / 0x1_0000 % 32 }
  function FieldRd(insn: Word): (i: nat) ensures i < 32 { insn / 0x800 % 32 }
  function FieldSa(insn: Word): (i: nat) ensures i < 32 { insn / 0x40 % 32 }

  /** The opcode number an instruction word selects, before the validity check. */
  function Selector(insn: Word): (n: nat)
    ensures n < 256
  {
    var opcode := insn / 0x400_0000;
    if opcode == SPECIAL then insn % 0x40 + 0x40
    else if opcode == REGIMM then FieldRt(insn) + 0x80
    else opcode
  }

  function Decode(insn: Word): (op: int)
    ensures op == -1 || (IsOpcode(op) && op != SPECIAL && op != REGIMM)
  {
    if IsOpcode(Selector(insn)) then Selector(insn) else -1
  }

  /** Every opcode number other than the two escapes has instruction words: the numbers below 0x40 in
      the opcode field, those from 0x40 in the function field, those from 0x80 in the RT field. */
  lemma DecodeMain(op: nat, rest: nat)
    requires IsOpcode(op) && REGIMM < op < 0x40 && rest < 0x400_0000
    ensures Decode(0x400_0000 * op + rest) == op
  {
    hide IsOpcode, FieldRt;
    DivModUnique(0x400_0000 * op + rest, 0x400_0000, op, rest);
  }

  lemma DecodeSpecial(op: nat, rest: nat)
    requires IsOpcode(op) && 0x40 <= op < 0x80 && rest < 0x10_0000
    ensures Decode(0x40 * rest + (op - 0x40)) == op
  {
    hide IsOpcode, FieldRt;
    DivModUnique(0x40 * rest + (op - 0x40), 0x40, rest, op - 0x40);
  }

  lemma DecodeRegimm(op: nat, rest: nat)
    requires IsOpcode(op) && op >= 0x80 && rest < 0x1_0000
    ensures Decode(0x400_0000 + 0x1_0000 * (op - 0x80) + rest) == op
  {
    var insn := 0x400_0000 + 0x1_0000 * (op - 0x80) + rest;
    assert op < 0xA0;
    hide IsOpcode;
    DivModUnique(insn, 0x400_0000, 1, 0x1_0000 * (op - 0x80) + rest);
    DivModUnique(insn, 0x1_0000, 0x400 + (op - 0x80), rest);
  }

  // ----- The bitmap -----

  /** `1 << k` as a word. */
  function BitMask(k: nat): (m: Word)
    requires k < 32
    ensures m == Pow2(k)
  {
    Pow2Bytes();
    Pow2Monotone(k, 31);
    Shl(1, k)
  }

  predicate GetBit(v: seq<Word>, n: nat)
    requires |v| == 8 && n < 256
  {
    And(v[n / 32], BitMask(n % 32)) != 0
  }

  lemma SetBitGetBit(v: seq<Word>, n: nat, m: nat)
    requires |v| == 8 && n < 256 && m < 256
    ensures GetBit(v[n / 32 := Or(v[n / 32], BitMask(n % 32))], m) <==> m == n || GetBit(v, m)
  {
    if m / 32 == n / 32 {
      var w := v[n / 32];
      MaskTest(w, m % 32);
      MaskTest(Or(w, BitMask(n % 32)), m % 32);
      BitOfBitwise(BitOp.OR, w, BitMask(n % 32), m % 32);
      BitOfPow2(n % 32, m % 32);
    }
  }

  lemma NothingSet(v: seq<Word>)
    requires |v| == 8 && forall k :: 0 <= k < 8 ==> v[k] == 0
    ensures forall n: nat :: n < 256 ==> !GetBit(v, n)
  {
    forall n: nat | n < 256
      ensures !GetBit(v, n)
    {
      BitwiseZero(BitOp.AND, BitMask(n % 32));
    }
  }

  lemma ListedBelow256(n: int)
    requires n in OPCODE_LIST
    ensures 0 <= n < 256
  {
    ListIsOpcodes(n);
  }

  lemma OneMoreSet(v: seq<Word>, v': seq<Word>, i: nat)
    requires |v| == 8 && i < |OPCODE_LIST| && 0 <= OPCODE_LIST[i] < 256
    requires forall n: nat :: n < 256 ==> (GetBit(v, n) <==> n in OPCODE_LIST[..i])
    requires var n := OPCODE_LIST[i]; v' == v[n / 32 := Or(v[n / 32], BitMask(n % 32))]
    ensures |v'| == 8 && forall n: nat :: n < 256 ==> (GetBit(v', n) <==> n in OPCODE_LIST[..i + 1])
  {
    hide GetBit, BitMask, Or;
    assert OPCODE_LIST[..i + 1] == OPCODE_LIST[..i] + [OPCODE_LIST[i]];
    forall m: nat | m < 256
      ensures GetBit(v', m) <==> m in OPCODE_LIST[..i + 1]
    {
      SetBitGetBit(v, OPCODE_LIST[i], m);
    }
  }

  /** The decoder with its global table of valid opcodes. */
  class Decoder {
    const valid: array<Word>

    constructor ()
      ensures fresh(valid) && valid.Length == 8
    {
      valid := new Word[8];
    }

    ghost predicate Ready()
      reads this, valid
    {
      valid.Length == 8 && forall n: nat :: n < 256 ==> (GetBit(valid[..], n) <==> IsOpcode(n))
    }

    method MipsInit()
      requires valid.Length == 8
      modifies valid
      ensures Ready()
    {
      hide IsOpcode;
      for i := 0 to 8
        invariant forall k :: 0 <= k < i ==> valid[k] == 0
      {
        valid[i] := 0;
      }
      NothingSet(valid[..]);
      hide GetBit, BitMask, Or;
      for i := 0 to |OPCODE_LIST|
        invariant forall n: nat :: n < 256 ==> (GetBit(valid[..], n) <==> n in OPCODE_LIST[..i])
      {
        var n := OPCODE_LIST[i];
        ghost var before := valid[..];
        ListedBelow256(n);
        valid[n / 32] := Or(valid[n / 32], BitMask(n % 32));
        OneMoreSet(before, valid[..], i);
      }
      forall n: nat | n < 256
        ensures GetBit(valid[..], n) <==> IsOpcode(n)
      {
        ListIsOpcodes(n);
        assert OPCODE_LIST[..|OPCODE_LIST|] == OPCODE_LIST;
      }
    }

    method MipsDecode(insn: Word) returns (op: int)
      requires Ready()
      ensures op == Decode(insn)
    {
      var opcode := insn / 0x400_0000;
      if opcode == SPECIAL {
        opcode := insn % 0x40 + 0x40;
      } else if opcode == REGIMM {
        opcode := FieldRt(insn) + 0x80;
      }
      op := if GetBit(valid[..], opcode) then opcode else -1;
    }
  }
}
