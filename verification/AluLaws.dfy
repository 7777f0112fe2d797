/** Laws of the logical, shifting, comparing and moving instructions. */
module AluLaws {
  import opened Bits
  import opened Memory
  import opened Machine
  import Op = Opcodes

  /** Bit `k` of general register `i`. */
  function RegBit(g: Gprs, i: nat, k: nat): nat
    requires i < 32
  {
    BitAt(g.r[i], k)
  }

  /** An instruction that succeeds changes at most general register `i`, and never register 0. */
  ghost predicate ChangesOnly(g: Gprs, o: Outcome<Gprs>, i: nat) {
    && o.exn == OK && o.st.hi == g.hi && o.st.lo == g.lo
    && forall j :: 0 <= j < 32 && (j != i || i == 0) ==> o.st.r[j] == g.r[j]
  }

  /** AND, OR, XOR and NOR act on each bit of their operands. */
  lemma LogicBits(insn: Word, g: Gprs, k: nat)
    requires Op.FieldSa(insn) == 0 && Op.FieldRd(insn) != 0 && k < 32
    ensures var d, x, y := Op.FieldRd(insn), BitAt(Rs(insn, g.r), k), BitAt(Rt(insn, g.r), k);
            && (RegBit(DoAlu3(insn, Op.AND, g).st, d, k) == 1 <==> x == 1 && y == 1)
            && (RegBit(DoAlu3(insn, Op.OR, g).st, d, k) == 1 <==> x == 1 || y == 1)
            && (RegBit(DoAlu3(insn, Op.XOR, g).st, d, k) == 1 <==> x != y)
            && (RegBit(DoAlu3(insn, Op.NOR, g).st, d, k) == 1 <==> x == 0 && y == 0)
  {
    hide BitAt, Bitwise, Op.FieldRs, Op.FieldRt, Op.FieldRd, Op.FieldSa;
    var rs, rt := Rs(insn, g.r), Rt(insn, g.r);
    BitOfBitwise(BitOp.AND, rs, rt, k);
    BitOfBitwise(BitOp.OR, rs, rt, k);
    BitOfBitwise(BitOp.XOR, rs, rt, k);
    NotBits(Or(rs, rt), k);
    BitBelow2(rs, k);
    BitBelow2(rt, k);
  }

  /** ANDI, ORI and XORI take a zero-extended immediate: the high half is cleared or kept. */
  lemma LogicImmediateBits(insn: Word, g: Gprs, k: nat)
    requires Op.FieldRt(insn) != 0 && k < 32
    ensures var t, x := Op.FieldRt(insn), BitAt(Rs(insn, g.r), k);
            var y := if k < 16 then BitAt(insn, k) else 0;
            && (RegBit(DoAlui(insn, Op.ANDI, g).st, t, k) == 1 <==> x == 1 && y == 1)
            && (RegBit(DoAlui(insn, Op.ORI, g).st, t, k) == 1 <==> x == 1 || y == 1)
            && (RegBit(DoAlui(insn, Op.XORI, g).st, t, k) == 1 <==> x != y)
  {
    hide BitAt, Bitwise, Op.FieldRs, Op.FieldRt, Pow2;
    var rs, imm := Rs(insn, g.r), ZImm(insn);
    Pow2Bytes();
    if k < 16 {
      BitOfRemainder(insn, 16, k);
    } else {
      BitBeyond(imm, 16, k);
    }
    BitOfBitwise(BitOp.AND, rs, imm, k);
    BitOfBitwise(BitOp.OR, rs, imm, k);
    BitOfBitwise(BitOp.XOR, rs, imm, k);
    BitBelow2(rs, k);
    BitBelow2(insn, k);
  }

  /** The amount of a shift: a field of the instruction, or the low five bits of a register. */
  function ShiftAmount(insn: Word, op: int, g: Gprs): (n: nat)
    ensures n < 32
  {
    if IsConstantShift(op) then Op.FieldSa(insn) else Rs(insn, g.r) % 32
  }

  /** The field a shift requires to be zero. */
  function ShiftReserved(insn: Word, op: int): nat {
    if IsConstantShift(op) then Op.FieldRs(insn) else Op.FieldSa(insn)
  }

  /** Left shifts and logical right shifts move each bit and fill with zeros. */
  lemma ShiftBits(insn: Word, op: int, g: Gprs, k: nat)
    requires op == Op.SLL || op == Op.SRL || op == Op.SLLV || op == Op.SRLV
    requires Op.FieldRd(insn) != 0 && k < 32 && ShiftReserved(insn, op) == 0
    ensures var n, rt := ShiftAmount(insn, op, g), Rt(insn, g.r);
            RegBit(DoAlu3(insn, op, g).st, Op.FieldRd(insn), k) ==
            if op == Op.SLL || op == Op.SLLV then (if k < n then 0 else BitAt(rt, k - n))
            else (if k + n < 32 then BitAt(rt, k + n) else 0)
  {
    hide BitAt, Shl, Shr, Op.FieldRs, Op.FieldRt, Op.FieldRd, Op.FieldSa;
    ShlBits(Rt(insn, g.r), ShiftAmount(insn, op, g), k);
    ShrBits(Rt(insn, g.r), ShiftAmount(insn, op, g), k);
  }

  /** Arithmetic right shifts divide the signed operand, rounding towards minus infinity. */
  lemma ShiftArithmetic(insn: Word, op: int, g: Gprs)
    requires op == Op.SRA || op == Op.SRAV
    requires Op.FieldRd(insn) != 0 && ShiftReserved(insn, op) == 0
    ensures var p, q := Pow2(ShiftAmount(insn, op, g)), Signed(DoAlu3(insn, op, g).st.r[Op.FieldRd(insn)]);
            p * q <= Signed(Rt(insn, g.r)) < p * q + p
  {
    hide Sra, Pow2, Op.FieldRs, Op.FieldRt, Op.FieldRd, Op.FieldSa;
    SraFloor(Rt(insn, g.r), ShiftAmount(insn, op, g));
  }

  // ----- Comparisons -----

  lemma TopBit(x: Word)
    ensures BitAt(x, 31) == if x < 0x8000_0000 then 0 else 1
  {
    Pow2Bytes();
    assert Pow2(28) == 0x1000_0000;
    assert Pow2(31) == 0x8000_0000;
    BitOfQuotient(x, 31, 0);
  }

  /** The result an ALU instruction leaves in its destination. */
  function Result(insn: Word, op: int, g: Gprs): Word {
    DoAlu3(insn, op, g).st.r[Op.FieldRd(insn)]
  }

  /** SLT and SLTU are strict total orders: of a pair and the swapped pair at most one is less, and
      neither is exactly when the operands are equal. They agree exactly when the operands have the same
      sign bit, and SLT is the sign bit SUBU leaves exactly when the difference does not overflow. */
  lemma Comparisons(insn: Word, swapped: Word, g: Gprs)
    requires Op.FieldSa(insn) == Op.FieldSa(swapped) == 0 && Op.FieldRd(insn) != 0 && Op.FieldRd(swapped) != 0
    requires Op.FieldRs(swapped) == Op.FieldRt(insn) && Op.FieldRt(swapped) == Op.FieldRs(insn)
    ensures var x, y := Rs(insn, g.r), Rt(insn, g.r);
            && Result(insn, Op.SLT, g) + Result(swapped, Op.SLT, g) == (if x == y then 0 else 1)
            && Result(insn, Op.SLTU, g) + Result(swapped, Op.SLTU, g) == (if x == y then 0 else 1)
            && (Result(insn, Op.SLT, g) == Result(insn, Op.SLTU, g) <==> x == y || BitAt(x, 31) == BitAt(y, 31))
            && (Result(insn, Op.SLT, g) == BitAt(Result(insn, Op.SUBU, g), 31) <==> FitsSigned(Signed(x) - Signed(y)))
  {
    hide Op.FieldRs, Op.FieldRt, Op.FieldRd, Op.FieldSa, BitAt;
    TopBit(Rs(insn, g.r));
    TopBit(Rt(insn, g.r));
    TopBit(Result(insn, Op.SUBU, g));
  }

  /** The 64-bit number held in two registers. */
  function Wide(high: Word, low: Word): int { WORD * high + low }

  /** ADDU, then SLTU of the sum and an operand, is the carry: with two more ADDU it adds 64-bit numbers
      held in register pairs. */
  lemma CarryChain(low: Word, carry: Word, g: Gprs, xh: Word, yh: Word)
    requires Op.FieldSa(low) == Op.FieldSa(carry) == 0 && Op.FieldRd(low) != 0 && Op.FieldRd(carry) != 0
    requires Op.FieldRs(carry) == Op.FieldRd(low) && Op.FieldRt(carry) == Op.FieldRs(low) != Op.FieldRd(low)
    ensures var sum := DoAlu3(low, Op.ADDU, g).st; var c := Result(carry, Op.SLTU, sum);
            Wide(ToWord(ToWord(xh + yh) + c), sum.r[Op.FieldRd(low)]) ==
            (Wide(xh, Rs(low, g.r)) + Wide(yh, Rt(low, g.r))) % (WORD * WORD)
  {
    hide Op.FieldRs, Op.FieldRt, Op.FieldRd, Op.FieldSa, ToWord, Wide;
    CarryOut(xh, Rs(low, g.r), yh, Rt(low, g.r));
  }

  lemma CarryOut(xh: Word, x: Word, yh: Word, y: Word)
    ensures Wide(ToWord(ToWord(xh + yh) + Flag(ToWord(x + y) < x)), ToWord(x + y)) ==
            (Wide(xh, x) + Wide(yh, y)) % (WORD * WORD)
  {
    hide ToWord;
    var a: int, b: int, ah: int, bh: int := x, y, xh, yh;
    var z, c: int := ToWord(a + b), Flag(ToWord(x + y) < x);
    CarryIs(x, y);
    ToWordTwice(ah + bh, c);
    HighSum(ah + bh + c, z);
  }

  lemma CarryIs(x: Word, y: Word)
    ensures 0 + x + y == WORD * Flag(ToWord(x + y) < x) + ToWord(x + y)
  {
  }

  lemma HighSum(h: int, z: Word)
    ensures (WORD * h + z) % (WORD * WORD) == WORD * ToWord(h) + z
  {
    var q, r := h / WORD, h % WORD;
    assert WORD * h + z == (WORD * WORD) * q + (WORD * r + z);
    DivModUnique(WORD * h + z, WORD * WORD, q, WORD * r + z);
  }

  /** SLTI and SLTIU are SLT and SLTU against a register that ADDIU has loaded with the immediate. */
  lemma ImmediateComparisons(imm: Word, load: Word, reg: Word, g: Gprs)
    requires g.r[0] == 0 && Op.FieldRs(load) == 0 && Op.FieldRt(load) != 0 && SImm(load) == SImm(imm)
    requires Op.FieldRs(reg) == Op.FieldRs(imm) != Op.FieldRt(load) == Op.FieldRt(reg)
    requires Op.FieldSa(reg) == 0 && Op.FieldRd(reg) == Op.FieldRt(imm) != 0
    ensures var loaded := DoAlui(load, Op.ADDIU, g).st;
            && DoAlui(imm, Op.SLTI, g).st.r[Op.FieldRt(imm)] == Result(reg, Op.SLT, loaded)
            && DoAlui(imm, Op.SLTIU, g).st.r[Op.FieldRt(imm)] == Result(reg, Op.SLTU, loaded)
  {
    hide Op.FieldRs, Op.FieldRt, Op.FieldRd, Op.FieldSa;
    SignedToWord(SImm(imm));
  }

  /** Every ALU instruction that succeeds writes its destination only. */
  lemma AluWritesDestination(insn: Word, op: int, g: Gprs)
    ensures DoAlui(insn, op, g).exn == OK ==> ChangesOnly(g, DoAlui(insn, op, g), Op.FieldRt(insn))
    ensures DoAlu3(insn, op, g).exn == OK ==> ChangesOnly(g, DoAlu3(insn, op, g), Op.FieldRd(insn))
  {
    hide Op.FieldRs, Op.FieldRt, Op.FieldRd, Op.FieldSa, And, Or, Xor, Not, Shl, Shr, Sra, Signed, ToWord;
  }

  // ----- Sequences -----

  /** LUI then ORI into the same register loads any 32-bit constant. */
  lemma LoadConstant(c: Codec, m: State, lui: Word, ori: Word)
    requires Op.FieldRs(lui) == 0
    requires Op.FieldRt(lui) == Op.FieldRt(ori) == Op.FieldRs(ori) != 0
    ensures var first := DoLoadStore(c, lui, Op.LUI, m);
            && first.exn == OK
            && DoAlui(ori, Op.ORI, first.st.core.g) ==
               Outcome(OK, m.core.g.(r := Put(m.core.g.r, Op.FieldRt(lui), 0x1_0000 * ZImm(lui) + ZImm(ori))))
  {
    hide Op.FieldRs, Op.FieldRt, Bitwise, Pow2, EffectiveAddress;
    Pow2Bytes();
    var h, l := ZImm(lui), ZImm(ori);
    assert Shl(h, 16) == 0x1_0000 * h;
    BitwiseConcat(BitOp.OR, 16, h, 0, 0, l);
    BitwiseZero(BitOp.OR, h);
    BitwiseZero(BitOp.OR, l);
    var r, i := m.core.g.r, Op.FieldRt(lui);
    assert r[i := Shl(h, 16)][i := 0x1_0000 * h + l] == r[i := 0x1_0000 * h + l];
  }

  /** What MTHI and MTLO put in HI and LO, MFHI and MFLO get back. */
  lemma HiLoRoundTrip(to: Word, from: Word, g: Gprs)
    requires to / 0x40 % 0x8000 == 0
    requires Op.FieldRs(from) == 0 && Op.FieldRt(from) == 0 && from / 0x40 % 32 == 0
    ensures DoDivMult(from, Op.MFHI, DoDivMult(to, Op.MTHI, g).st).st.r ==
            Put(g.r, Op.FieldRd(from), Rs(to, g.r))
    ensures DoDivMult(from, Op.MFLO, DoDivMult(to, Op.MTLO, g).st).st.r ==
            Put(g.r, Op.FieldRd(from), Rs(to, g.r))
    ensures DoDivMult(to, Op.MTHI, g).st.lo == g.lo && DoDivMult(to, Op.MTLO, g).st.hi == g.hi
  {
    hide Op.FieldRs, Op.FieldRt, Op.FieldRd;
  }
}
