/** The instruction set in numbers: what a step does on each instruction word, given by its fields. */
module Isa {
  import opened Bits
  import opened Memory
  import opened Machine
  import A = Arithmetic
  import Op = Opcodes
  import P = StepProperties
  import U = Unaligned

  // ----- Instruction words -----

  /** A word with opcode field 0: three registers, a shift amount and a function number. */
  function RWord(rs: nat, rt: nat, rd: nat, sa: nat, funct: nat): Word
    requires rs < 32 && rt < 32 && rd < 32 && sa < 32 && funct < 64
  {
    0x20_0000 * rs + 0x1_0000 * rt + 0x800 * rd + 0x40 * sa + funct
  }

  /** A word with an opcode field, two registers and 16 low bits. */
  function IWord(op: nat, rs: nat, rt: nat, low: nat): Word
    requires op < 64 && rs < 32 && rt < 32 && low < 0x1_0000
  {
    0x400_0000 * op + 0x20_0000 * rs + 0x1_0000 * rt + low
  }

  lemma RFields(rs: nat, rt: nat, rd: nat, sa: nat, funct: nat)
    requires rs < 32 && rt < 32 && rd < 32 && sa < 32 && funct < 64
    ensures var w := RWord(rs, rt, rd, sa, funct);
            && w / 0x400_0000 == 0 && w % 0x40 == funct
            && Op.FieldRs(w) == rs && Op.FieldRt(w) == rt && Op.FieldRd(w) == rd && Op.FieldSa(w) == sa
            && w / 0x40 % 0x400 == 0x20 * rd + sa && w / 0x40 % 0x8000 == 0x400 * rt + 0x20 * rd + sa
  {
    var w := RWord(rs, rt, rd, sa, funct);
    hide Op.FieldRs, Op.FieldRt, Op.FieldRd, Op.FieldSa;
    DivModUnique(w, 0x400_0000, 0, w);
    RRegisters(rs, rt, rd, sa, funct);
    RShamt(rs, rt, rd, sa, funct);
  }

  lemma RRegisters(rs: nat, rt: nat, rd: nat, sa: nat, funct: nat)
    requires rs < 32 && rt < 32 && rd < 32 && sa < 32 && funct < 64
    ensures var w := RWord(rs, rt, rd, sa, funct); Op.FieldRs(w) == rs && Op.FieldRt(w) == rt && Op.FieldRd(w) == rd
  {
    var w := RWord(rs, rt, rd, sa, funct);
    DivModUnique(w, 0x800, 0x400 * rs + 0x20 * rt + rd, 0x40 * sa + funct);
    DivModUnique(w, 0x1_0000, 0x20 * rs + rt, 0x800 * rd + 0x40 * sa + funct);
    DivModUnique(w, 0x20_0000, rs, 0x1_0000 * rt + 0x800 * rd + 0x40 * sa + funct);
    DivModUnique(0x400 * rs + 0x20 * rt + rd, 32, 0x20 * rs + rt, rd);
    DivModUnique(0x20 * rs + rt, 32, rs, rt);
  }

  lemma RShamt(rs: nat, rt: nat, rd: nat, sa: nat, funct: nat)
    requires rs < 32 && rt < 32 && rd < 32 && sa < 32 && funct < 64
    ensures var w := RWord(rs, rt, rd, sa, funct);
            && w % 0x40 == funct && Op.FieldSa(w) == sa
            && w / 0x40 % 0x400 == 0x20 * rd + sa && w / 0x40 % 0x8000 == 0x400 * rt + 0x20 * rd + sa
  {
    var w, high := RWord(rs, rt, rd, sa, funct), 0x8000 * rs + 0x400 * rt + 0x20 * rd + sa;
    DivModUnique(w, 0x40, high, funct);
    DivModUnique(high, 32, 0x400 * rs + 0x20 * rt + rd, sa);
    DivModUnique(high, 0x400, 0x20 * rs + rt, 0x20 * rd + sa);
    DivModUnique(high, 0x8000, rs, 0x400 * rt + 0x20 * rd + sa);
  }

  lemma IFields(op: nat, rs: nat, rt: nat, low: nat)
    requires op < 64 && rs < 32 && rt < 32 && low < 0x1_0000
    ensures var w := IWord(op, rs, rt, low);
            && w / 0x400_0000 == op && Op.FieldRs(w) == rs && Op.FieldRt(w) == rt && w % 0x1_0000 == low
  {
    var w := IWord(op, rs, rt, low);
    DivModUnique(w, 0x400_0000, op, 0x20_0000 * rs + 0x1_0000 * rt + low);
    DivModUnique(w, 0x20_0000, 0x20 * op + rs, 0x1_0000 * rt + low);
    DivModUnique(w, 0x1_0000, 0x400 * op + 0x20 * rs + rt, low);
  }

  // ----- States -----

  /** The next instruction, from the delay slot or from PC, is `insn`, and register 0 is intact. */
  ghost predicate Fetched(c: Codec, m: State, insn: Word) {
    m.core.g.r[0] == 0 && PeekUw(c, m.mem, if m.core.ds != 0 then m.core.ds else m.core.pc) == Value(insn)
  }

  /** Behind an instruction that is no control transfer: PC moves on, unless it was one in a delay slot. */
  function Behind(m: State, g: Gprs, mem: Ram): Outcome<State> {
    Outcome(OK, State(Core(g, if m.core.ds != 0 then m.core.pc else (m.core.pc + 4) % 0x1_0000_0000, 0), mem))
  }

  /** Register `i` set to `v` modulo 2^32; register 0 stays. */
  function Set(m: State, i: nat, v: int): Outcome<State>
    requires i < 32
  {
    Behind(m, if i == 0 then m.core.g else m.core.g.(r := m.core.g.r[i := v % 0x1_0000_0000]), m.mem)
  }

  /** The same with a trap if the exact value is no signed word. */
  function SetTrapping(m: State, i: nat, v: int): Outcome<State>
    requires i < 32
  {
    if i != 0 && !(-0x8000_0000 <= v < 0x8000_0000) then Outcome(OVERFLOW, m) else Set(m, i, v)
  }

  function SetHiLo(m: State, hi: int, lo: int): Outcome<State> {
    Behind(m, m.core.g.(hi := hi % 0x1_0000_0000, lo := lo % 0x1_0000_0000), m.mem)
  }

  /** The two's complement reading of a word. */
  function Int(x: Word): int { if x >= 0x8000_0000 then x - 0x1_0000_0000 else x }

  function Reg(m: State, i: nat): Word
    requires i < 32
  {
    m.core.g.r[i]
  }

  lemma IntIsSigned(x: Word)
    ensures Int(x) == Signed(x)
  {
  }

  // ----- From dispatch to step -----

  lemma StepIs(c: Codec, m: State, insn: Word, op: int)
    requires Fetched(c, m, insn) && op == Op.Decode(insn) && op >= 0
    ensures var o := Dispatch(c, insn, op, m);
            Step(c, m) == if o.exn != OK then o
                          else Outcome(OK, o.st.(core := Advance(o.st.core, m.core.ds != 0)))
  {
    hide Dispatch, PeekUw, Op.Decode;
    P.DispatchPrecise(c, insn, op, m);
  }

  lemma GprStep(c: Codec, m: State, insn: Word, op: int, o: Outcome<Gprs>)
    requires Fetched(c, m, insn) && op == Op.Decode(insn) && op >= 0 && Dispatch(c, insn, op, m) == WithGprs(m, o)
    ensures o.exn == OK ==> Step(c, m) == Behind(m, o.st, m.mem)
    ensures o.exn != OK ==> Step(c, m) == Outcome(o.exn, m.(core := m.core.(g := o.st)))
  {
    hide Dispatch, Step, Op.Decode;
    StepIs(c, m, insn, op);
  }

  lemma DecodeR(rs: nat, rt: nat, rd: nat, sa: nat, funct: nat)
    requires rs < 32 && rt < 32 && rd < 32 && sa < 32 && funct < 64
    ensures Op.Decode(RWord(rs, rt, rd, sa, funct)) == if Op.IsOpcode(funct + 0x40) then funct + 0x40 else -1
  {
    RFields(rs, rt, rd, sa, funct);
    hide Op.IsOpcode, RWord, Op.FieldRt;
  }

  lemma DecodeI(op: nat, rs: nat, rt: nat, low: nat)
    requires 2 <= op < 64 && rs < 32 && rt < 32 && low < 0x1_0000
    ensures Op.Decode(IWord(op, rs, rt, low)) == if Op.IsOpcode(op) then op else -1
  {
    IFields(op, rs, rt, low);
    hide Op.IsOpcode, IWord, Op.FieldRt;
  }

  // ----- Registers to register -----

  /** Sums, differences and comparisons; function numbers 0x20 to 0x23, 0x2A and 0x2B. */
  function AluResult(m: State, funct: nat, rd: nat, x: Word, y: Word): Outcome<State>
    requires rd < 32
  {
    if funct == 0x20 then SetTrapping(m, rd, Int(x) + Int(y))
    else if funct == 0x21 then Set(m, rd, x + y)
    else if funct == 0x22 then SetTrapping(m, rd, Int(x) - Int(y))
    else if funct == 0x23 then Set(m, rd, x - y)
    else if funct == 0x2A then Set(m, rd, if Int(x) < Int(y) then 1 else 0)
    else Set(m, rd, if x < y then 1 else 0)
  }

  predicate IsArithmetic(funct: nat) { 0x20 <= funct <= 0x23 || funct == 0x2A || funct == 0x2B }

  lemma AluDispatch(c: Codec, m: State, insn: Word, op: int)
    requires IsAlu3(op)
    ensures Dispatch(c, insn, op, m) == WithGprs(m, DoAlu3(insn, op, m.core.g))
  {
    hide DoAlu3;
  }

  /** How a step ends whose handler ends with `o`. */
  function Ended(m: State, o: Outcome<Gprs>): Outcome<State> {
    if o.exn == OK then Behind(m, o.st, m.mem) else Outcome(o.exn, m.(core := m.core.(g := o.st)))
  }

  lemma Alu3Step(c: Codec, m: State, rs: nat, rt: nat, rd: nat, sa: nat, funct: nat)
    requires rs < 32 && rt < 32 && rd < 32 && sa < 32 && funct < 64 && IsAlu3(funct + 0x40)
    requires Fetched(c, m, RWord(rs, rt, rd, sa, funct))
    ensures Step(c, m) == Ended(m, DoAlu3(RWord(rs, rt, rd, sa, funct), funct + 0x40, m.core.g))
  {
    hide DoAlu3, Step, Dispatch, Op.Decode, RWord, Fetched;
    var insn, op := RWord(rs, rt, rd, sa, funct), funct + 0x40;
    DecodeR(rs, rt, rd, sa, funct);
    AluDispatch(c, m, insn, op);
    GprStep(c, m, insn, op, DoAlu3(insn, op, m.core.g));
  }

  lemma AluStep(c: Codec, m: State, rs: nat, rt: nat, rd: nat, funct: nat)
    requires rs < 32 && rt < 32 && rd < 32 && IsArithmetic(funct) && Fetched(c, m, RWord(rs, rt, rd, 0, funct))
    ensures Step(c, m) == AluResult(m, funct, rd, Reg(m, rs), Reg(m, rt))
  {
    hide DoAlu3, Step, RWord, Fetched, Op.FieldRs, Op.FieldRt, Op.FieldRd, Op.FieldSa, AluResult;
    RFields(rs, rt, rd, 0, funct);
    Alu3Step(c, m, rs, rt, rd, 0, funct);
    AluValue(m, RWord(rs, rt, rd, 0, funct), funct, rd, Reg(m, rs), Reg(m, rt));
  }

  lemma AluValue(m: State, insn: Word, funct: nat, rd: nat, x: Word, y: Word)
    requires IsArithmetic(funct) && Op.FieldSa(insn) == 0 && Op.FieldRd(insn) == rd
    requires Rs(insn, m.core.g.r) == x && Rt(insn, m.core.g.r) == y
    ensures Ended(m, DoAlu3(insn, funct + 0x40, m.core.g)) == AluResult(m, funct, rd, x, y)
  {
    hide Op.FieldRs, Op.FieldRt, Op.FieldRd, Op.FieldSa, Rs, Rt, Behind, Signed, Int;
    IntIsSigned(x);
    IntIsSigned(y);
    SumsWrap(x, y);
  }

  lemma SumsWrap(x: Word, y: Word)
    ensures (Signed(x) + Signed(y)) % 0x1_0000_0000 == (0 + x + y) % 0x1_0000_0000
    ensures (Signed(x) - Signed(y)) % 0x1_0000_0000 == (0 + x - y) % 0x1_0000_0000
  {
  }

  /** A bit of a logical operation: function numbers or opcodes 0x24 and 0x0C, 0x25 and 0x0D, 0x26 and 0x0E, 0x27. */
  function LogicBit(number: nat, x: nat, y: nat): nat {
    if number == 0x24 || number == 0x0C then (if x == 1 && y == 1 then 1 else 0)
    else if number == 0x25 || number == 0x0D then (if x == 0 && y == 0 then 0 else 1)
    else if number == 0x26 || number == 0x0E then (x + y) % 2
    else if x == 0 && y == 0 then 1 else 0
  }

  lemma LogicStep(c: Codec, m: State, rs: nat, rt: nat, rd: nat, funct: nat) returns (v: Word)
    requires rs < 32 && rt < 32 && rd < 32 && 0x24 <= funct <= 0x27 && Fetched(c, m, RWord(rs, rt, rd, 0, funct))
    ensures Step(c, m) == Set(m, rd, v)
    ensures forall k: nat {:trigger BitAt(v, k)} :: k < 32 ==>
              BitAt(v, k) == LogicBit(funct, BitAt(Reg(m, rs), k), BitAt(Reg(m, rt), k))
  {
    hide DoAlu3, Step, RWord, Fetched, Op.FieldRs, Op.FieldRt, Op.FieldRd, Op.FieldSa, Bitwise, BitAt;
    RFields(rs, rt, rd, 0, funct);
    Alu3Step(c, m, rs, rt, rd, 0, funct);
    v := LogicValue(m, RWord(rs, rt, rd, 0, funct), funct, rd, Reg(m, rs), Reg(m, rt));
  }

  lemma LogicValue(m: State, insn: Word, funct: nat, rd: nat, x: Word, y: Word) returns (v: Word)
    requires 0x24 <= funct <= 0x27 && Op.FieldSa(insn) == 0 && Op.FieldRd(insn) == rd
    requires Rs(insn, m.core.g.r) == x && Rt(insn, m.core.g.r) == y
    ensures Ended(m, DoAlu3(insn, funct + 0x40, m.core.g)) == Set(m, rd, v)
    ensures forall k: nat {:trigger BitAt(v, k)} :: k < 32 ==> BitAt(v, k) == LogicBit(funct, BitAt(x, k), BitAt(y, k))
  {
    hide Op.FieldRs, Op.FieldRt, Op.FieldRd, Op.FieldSa, Rs, Rt, Bitwise, BitAt;
    v := if funct == 0x24 then And(x, y) else if funct == 0x25 then Or(x, y)
         else if funct == 0x26 then Xor(x, y) else Not(Or(x, y));
    forall k: nat {:trigger BitAt(v, k)} | k < 32
      ensures BitAt(v, k) == LogicBit(funct, BitAt(x, k), BitAt(y, k))
    {
      LogicDigit(funct, x, y, k);
    }
  }

  lemma LogicDigit(number: nat, x: Word, y: Word, k: nat)
    requires k < 32
    ensures number == 0x24 || number == 0x0C ==> BitAt(And(x, y), k) == LogicBit(number, BitAt(x, k), BitAt(y, k))
    ensures number == 0x25 || number == 0x0D ==> BitAt(Or(x, y), k) == LogicBit(number, BitAt(x, k), BitAt(y, k))
    ensures number == 0x26 || number == 0x0E ==> BitAt(Xor(x, y), k) == LogicBit(number, BitAt(x, k), BitAt(y, k))
    ensures number == 0x27 ==> BitAt(Not(Or(x, y)), k) == LogicBit(number, BitAt(x, k), BitAt(y, k))
  {
    hide Bitwise, BitAt;
    BitOfBitwise(BitOp.AND, x, y, k);
    BitOfBitwise(BitOp.OR, x, y, k);
    BitOfBitwise(BitOp.XOR, x, y, k);
    NotBits(Or(x, y), k);
    BitBelow2(x, k);
    BitBelow2(y, k);
  }

  /** Shifts by a field: function numbers 0, 2 and 3. Those by a register, 4, 6 and 7, use its low five bits. */
  function Shifted(funct: nat, y: Word, n: nat): int {
    if funct == 0 || funct == 4 then y * Pow2(n)
    else if funct == 2 || funct == 6 then y / Pow2(n)
    else Int(y) / Pow2(n)
  }

  lemma ShiftValue(m: State, insn: Word, funct: nat, rd: nat, y: Word, n: nat)
    requires funct == 0 || funct == 2 || funct == 3 || funct == 4 || funct == 6 || funct == 7
    requires n == if funct < 4 then Op.FieldSa(insn) else Rs(insn, m.core.g.r) % 32
    requires (if funct < 4 then Op.FieldRs(insn) else Op.FieldSa(insn)) == 0
    requires Op.FieldRd(insn) == rd && Rt(insn, m.core.g.r) == y
    ensures Ended(m, DoAlu3(insn, funct + 0x40, m.core.g)) == Set(m, rd, Shifted(funct, y, n))
  {
    hide Op.FieldRs, Op.FieldRt, Op.FieldRd, Op.FieldSa, Rt, Pow2, Int, Shl, Shr, Sra, Behind;
    ShiftsAre(y, n);
  }

  lemma ShiftsAre(y: Word, n: nat)
    requires n < 32
    ensures Shl(y, n) == Shifted(0, y, n) % 0x1_0000_0000
    ensures Shr(y, n) == Shifted(2, y, n) % 0x1_0000_0000
    ensures Sra(y, n) == Shifted(3, y, n) % 0x1_0000_0000
  {
    hide Pow2;
    IntIsSigned(y);
    DivBound(y, Pow2(n));
  }

  lemma ShiftStep(c: Codec, m: State, rt: nat, rd: nat, sa: nat, funct: nat)
    requires rt < 32 && rd < 32 && sa < 32 && (funct == 0 || funct == 2 || funct == 3)
    requires Fetched(c, m, RWord(0, rt, rd, sa, funct))
    ensures Step(c, m) == Set(m, rd, Shifted(funct, Reg(m, rt), sa))
  {
    hide DoAlu3, Step, RWord, Fetched, Op.FieldRs, Op.FieldRt, Op.FieldRd, Op.FieldSa, Shifted;
    RFields(0, rt, rd, sa, funct);
    Alu3Step(c, m, 0, rt, rd, sa, funct);
    ShiftValue(m, RWord(0, rt, rd, sa, funct), funct, rd, Reg(m, rt), sa);
  }

  lemma VariableShiftStep(c: Codec, m: State, rs: nat, rt: nat, rd: nat, funct: nat)
    requires rs < 32 && rt < 32 && rd < 32 && (funct == 4 || funct == 6 || funct == 7)
    requires Fetched(c, m, RWord(rs, rt, rd, 0, funct))
    ensures Step(c, m) == Set(m, rd, Shifted(funct, Reg(m, rt), Reg(m, rs) % 32))
  {
    hide DoAlu3, Step, RWord, Fetched, Op.FieldRs, Op.FieldRt, Op.FieldRd, Op.FieldSa, Shifted;
    RFields(rs, rt, rd, 0, funct);
    Alu3Step(c, m, rs, rt, rd, 0, funct);
    ShiftValue(m, RWord(rs, rt, rd, 0, funct), funct, rd, Reg(m, rt), Reg(m, rs) % 32);
  }

  /** The field an instruction does not use has to be zero. */
  lemma ReservedField(c: Codec, m: State, rs: nat, rt: nat, rd: nat, sa: nat, funct: nat)
    requires rs < 32 && rt < 32 && rd < 32 && sa < 32 && funct < 64 && Fetched(c, m, RWord(rs, rt, rd, sa, funct))
    requires ((funct == 0 || funct == 2 || funct == 3) && rs != 0) ||
             ((funct == 4 || funct == 6 || funct == 7 || 0x20 <= funct <= 0x27 || funct == 0x2A || funct == 0x2B) && sa != 0)
    ensures Step(c, m) == Outcome(INVALID, m)
  {
    hide DoAlu3, Step, RWord, Fetched, Op.FieldRs, Op.FieldRt, Op.FieldRd, Op.FieldSa;
    RFields(rs, rt, rd, sa, funct);
    Alu3Step(c, m, rs, rt, rd, sa, funct);
    ReservedValue(RWord(rs, rt, rd, sa, funct), funct, m.core.g);
  }

  lemma ReservedValue(insn: Word, funct: nat, g: Gprs)
    requires ((funct == 0 || funct == 2 || funct == 3) && Op.FieldRs(insn) != 0) ||
             ((funct == 4 || funct == 6 || funct == 7 || 0x20 <= funct <= 0x27 || funct == 0x2A || funct == 0x2B) &&
              Op.FieldSa(insn) != 0)
    ensures DoAlu3(insn, funct + 0x40, g) == Outcome(INVALID, g)
  {
    hide Op.FieldRs, Op.FieldRt, Op.FieldRd, Op.FieldSa, Rs, Rt;
  }

  // ----- HI and LO -----

  lemma HiLoStep(c: Codec, m: State, rs: nat, rt: nat, rd: nat, sa: nat, funct: nat)
    requires rs < 32 && rt < 32 && rd < 32 && sa < 32 && funct < 64 && IsDivMult(funct + 0x40)
    requires Fetched(c, m, RWord(rs, rt, rd, sa, funct))
    ensures Step(c, m) == Ended(m, DoDivMult(RWord(rs, rt, rd, sa, funct), funct + 0x40, m.core.g))
  {
    hide DoDivMult, Step, Op.Decode, RWord, Fetched;
    var insn, op := RWord(rs, rt, rd, sa, funct), funct + 0x40;
    DecodeR(rs, rt, rd, sa, funct);
    DivMultDispatch(c, m, insn, op);
    GprStep(c, m, insn, op, DoDivMult(insn, op, m.core.g));
  }

  lemma DivMultDispatch(c: Codec, m: State, insn: Word, op: int)
    requires IsDivMult(op)
    ensures Dispatch(c, insn, op, m) == WithGprs(m, DoDivMult(insn, op, m.core.g))
  {
    hide DoDivMult;
  }

  /** MULT, 0x18, and MULTU, 0x19: the two halves of the exact product modulo 2^64. */
  lemma MultiplyStep(c: Codec, m: State, rs: nat, rt: nat, funct: nat)
    requires rs < 32 && rt < 32 && (funct == 0x18 || funct == 0x19) && Fetched(c, m, RWord(rs, rt, 0, 0, funct))
    ensures var x, y := Reg(m, rs), Reg(m, rt); var p := if funct == 0x18 then Int(x) * Int(y) else x * y;
            Step(c, m) == SetHiLo(m, p % 0x1_0000_0000_0000_0000 / 0x1_0000_0000, p)
  {
    hide DoDivMult, Step, RWord, Fetched, Op.FieldRs, Op.FieldRt, Op.FieldRd, Op.FieldSa, Int, Signed, SetHiLo;
    var x: int, y: int := Reg(m, rs), Reg(m, rt);
    RFields(rs, rt, 0, 0, funct);
    HiLoStep(c, m, rs, rt, 0, 0, funct);
    IntIsSigned(x);
    IntIsSigned(y);
    var p: int := if funct == 0x18 then Int(x) * Int(y) else x * y;
    MultiplyValue(RWord(rs, rt, 0, 0, funct), funct, m.core.g, x, y);
    HalvesSet(m, p);
  }

  lemma MultiplyValue(insn: Word, funct: nat, g: Gprs, x: Word, y: Word)
    requires (funct == 0x18 || funct == 0x19) && insn / 0x40 % 0x400 == 0 && Rs(insn, g.r) == x && Rt(insn, g.r) == y
    ensures DoDivMult(insn, funct + 0x40, g) == Product(if funct == 0x18 then Signed(x) * Signed(y) else x * y, g)
  {
    hide Op.FieldRs, Op.FieldRt, Op.FieldRd, Op.FieldSa, Rs, Rt, Product, Signed;
  }

  lemma HalvesSet(m: State, p: int)
    ensures Ended(m, Product(p, m.core.g)) == SetHiLo(m, p % 0x1_0000_0000_0000_0000 / 0x1_0000_0000, p)
  {
    LowHalfOf(p);
  }

  lemma LowHalfOf(p: int)
    ensures p % 0x1_0000_0000_0000_0000 % 0x1_0000_0000 == p % 0x1_0000_0000
    ensures p % 0x1_0000_0000_0000_0000 / 0x1_0000_0000 % 0x1_0000_0000 == p % 0x1_0000_0000_0000_0000 / 0x1_0000_0000
  {
    var q, w := p / 0x1_0000_0000_0000_0000, p % 0x1_0000_0000_0000_0000;
    assert p == 0x1_0000_0000 * (0x1_0000_0000 * q + w / 0x1_0000_0000) + w % 0x1_0000_0000;
    DivModUnique(p, 0x1_0000_0000, 0x1_0000_0000 * q + w / 0x1_0000_0000, w % 0x1_0000_0000);
  }

  /** DIVU, 0x1B, and DIV, 0x1A: quotient and remainder, or all ones for a zero divisor. */
  lemma DivideStep(c: Codec, m: State, rs: nat, rt: nat)
    requires rs < 32 && rt < 32 && Fetched(c, m, RWord(rs, rt, 0, 0, 0x1B))
    ensures Step(c, m) == if Reg(m, rt) == 0 then SetHiLo(m, -1, -1)
                          else SetHiLo(m, Reg(m, rs) % Reg(m, rt), Reg(m, rs) / Reg(m, rt))
  {
    hide DoDivMult, Step, RWord, Fetched, Op.FieldRs, Op.FieldRt, Op.FieldRd, Op.FieldSa;
    RFields(rs, rt, 0, 0, 0x1B);
    HiLoStep(c, m, rs, rt, 0, 0, 0x1B);
    DivideValue(RWord(rs, rt, 0, 0, 0x1B), 0x1B, m.core.g, Reg(m, rs), Reg(m, rt));
    UnsignedQuotient(Reg(m, rs), Reg(m, rt), m.core.g);
  }

  lemma DivideValue(insn: Word, funct: nat, g: Gprs, x: Word, y: Word)
    requires (funct == 0x1A || funct == 0x1B) && insn / 0x40 % 0x400 == 0 && Rs(insn, g.r) == x && Rt(insn, g.r) == y
    ensures DoDivMult(insn, funct + 0x40, g) == if funct == 0x1A then Divide(Signed(x), Signed(y), g) else Divide(x, y, g)
  {
    hide Op.FieldRs, Op.FieldRt, Op.FieldRd, Op.FieldSa, Rs, Rt, Divide, Signed;
  }

  lemma UnsignedQuotient(x: Word, y: Word, g: Gprs)
    ensures Divide(x, y, g) == if y == 0 then Outcome(OK, g.(hi := 0xFFFF_FFFF, lo := 0xFFFF_FFFF))
                               else Outcome(OK, g.(hi := x % y, lo := DivWord(x, y)))
  {
    if y != 0 {
      PlainQuotient(x, y);
      DivBound(x, y);
      hide TruncDiv, TruncRem;
    }
  }

  lemma PlainQuotient(x: nat, y: nat)
    requires y > 0
    ensures TruncDiv(x, y) == x / y && TruncRem(x, y) == x % y
  {
    assert x == y * (x / y) + x % y;
  }

  function DivWord(x: Word, y: Word): Word
    requires y != 0
  {
    DivBound(x, y);
    x / y
  }

  lemma SignedDivideStep(c: Codec, m: State, rs: nat, rt: nat) returns (q: int, r: int)
    requires rs < 32 && rt < 32 && Fetched(c, m, RWord(rs, rt, 0, 0, 0x1A))
    ensures var x, y := Int(Reg(m, rs)), Int(Reg(m, rt));
            if y == 0 then Step(c, m) == SetHiLo(m, -1, -1)
            else if x == -0x8000_0000 && y == -1 then Step(c, m).exn == UNDEFINED
            else
              && Step(c, m) == SetHiLo(m, r, q) && x == q * y + r
              && Abs(r) < Abs(y) && (r < 0 ==> x < 0) && (r > 0 ==> x > 0)
  {
    hide Step, RWord, Fetched, Int, TruncDiv, TruncRem, Divide, SetHiLo, Ended;
    var a, b := Int(Reg(m, rs)), Int(Reg(m, rt));
    SignedDivideEnds(c, m, rs, rt);
    q, r := 0, 0;
    DivideEnds(m, a, b);
    if b != 0 {
      TruncatedQuotient(a, b);
      q, r := TruncDiv(a, b), TruncRem(a, b);
    }
  }

  lemma SignedDivideEnds(c: Codec, m: State, rs: nat, rt: nat)
    requires rs < 32 && rt < 32 && Fetched(c, m, RWord(rs, rt, 0, 0, 0x1A))
    ensures Step(c, m) == Ended(m, Divide(Int(Reg(m, rs)), Int(Reg(m, rt)), m.core.g))
  {
    hide DoDivMult, Step, RWord, Fetched, Op.FieldRs, Op.FieldRt, Op.FieldRd, Op.FieldSa, Int, Signed, Divide, Ended;
    RFields(rs, rt, 0, 0, 0x1A);
    HiLoStep(c, m, rs, rt, 0, 0, 0x1A);
    IntIsSigned(Reg(m, rs));
    IntIsSigned(Reg(m, rt));
    DivideValue(RWord(rs, rt, 0, 0, 0x1A), 0x1A, m.core.g, Reg(m, rs), Reg(m, rt));
  }

  lemma TruncatedQuotient(a: int, b: int)
    requires b != 0
    ensures var q, r := TruncDiv(a, b), TruncRem(a, b);
            a == q * b + r && Abs(r) < Abs(b) && (r < 0 ==> a < 0) && (r > 0 ==> a > 0)
  {
    hide TruncDiv, TruncRem;
    A.TruncatedDivision(a, b);
  }

  lemma DivideEnds(m: State, a: int, b: int)
    ensures var ended := Ended(m, Divide(a, b, m.core.g));
            if b == 0 then ended == SetHiLo(m, -1, -1)
            else if a == -0x8000_0000 && b == -1 then ended.exn == UNDEFINED
            else ended == SetHiLo(m, TruncRem(a, b), TruncDiv(a, b))
  {
    hide TruncDiv, TruncRem;
  }

  /** Moves: MFHI 0x10, MTHI 0x11, MFLO 0x12, MTLO 0x13. */
  lemma MoveFromStep(c: Codec, m: State, rd: nat)
    requires rd < 32
    ensures Fetched(c, m, RWord(0, 0, rd, 0, 0x10)) ==> Step(c, m) == Set(m, rd, m.core.g.hi)
    ensures Fetched(c, m, RWord(0, 0, rd, 0, 0x12)) ==> Step(c, m) == Set(m, rd, m.core.g.lo)
  {
    hide Step, RWord, Fetched, Op.FieldRs, Op.FieldRt, Op.FieldRd, Op.FieldSa;
    RFields(0, 0, rd, 0, 0x10);
    RFields(0, 0, rd, 0, 0x12);
    if Fetched(c, m, RWord(0, 0, rd, 0, 0x10)) {
      HiLoStep(c, m, 0, 0, rd, 0, 0x10);
    }
    if Fetched(c, m, RWord(0, 0, rd, 0, 0x12)) {
      HiLoStep(c, m, 0, 0, rd, 0, 0x12);
    }
  }

  lemma MoveToStep(c: Codec, m: State, rs: nat)
    requires rs < 32
    ensures Fetched(c, m, RWord(rs, 0, 0, 0, 0x11)) ==> Step(c, m) == SetHiLo(m, Reg(m, rs), m.core.g.lo)
    ensures Fetched(c, m, RWord(rs, 0, 0, 0, 0x13)) ==> Step(c, m) == SetHiLo(m, m.core.g.hi, Reg(m, rs))
  {
    hide Step, RWord, Fetched, Op.FieldRs, Op.FieldRt, Op.FieldRd, Op.FieldSa;
    RFields(rs, 0, 0, 0, 0x11);
    RFields(rs, 0, 0, 0, 0x13);
    if Fetched(c, m, RWord(rs, 0, 0, 0, 0x11)) {
      HiLoStep(c, m, rs, 0, 0, 0, 0x11);
    }
    if Fetched(c, m, RWord(rs, 0, 0, 0, 0x13)) {
      HiLoStep(c, m, rs, 0, 0, 0, 0x13);
    }
  }

  /** The unused fields of these have to be zero. */
  lemma ReservedHiLo(c: Codec, m: State, rs: nat, rt: nat, rd: nat, sa: nat, funct: nat)
    requires rs < 32 && rt < 32 && rd < 32 && sa < 32 && funct < 64 && Fetched(c, m, RWord(rs, rt, rd, sa, funct))
    requires || (0x18 <= funct <= 0x1B && (rd != 0 || sa != 0))
             || ((funct == 0x11 || funct == 0x13) && (rt != 0 || rd != 0 || sa != 0))
             || ((funct == 0x10 || funct == 0x12) && (rs != 0 || rt != 0 || sa != 0))
    ensures Step(c, m) == Outcome(INVALID, m)
  {
    hide DoDivMult, Step, RWord, Fetched, Op.FieldRs, Op.FieldRt, Op.FieldRd, Op.FieldSa;
    RFields(rs, rt, rd, sa, funct);
    HiLoStep(c, m, rs, rt, rd, sa, funct);
    ReservedHiLoValue(RWord(rs, rt, rd, sa, funct), m.core.g, rs, rt, rd, sa, funct);
  }

  lemma ReservedHiLoValue(insn: Word, g: Gprs, rs: nat, rt: nat, rd: nat, sa: nat, funct: nat)
    requires rd < 32 && sa < 32 && Op.FieldRs(insn) == rs && Op.FieldRt(insn) == rt
    requires insn / 0x40 % 0x400 == 0x20 * rd + sa && insn / 0x40 % 0x8000 == 0x400 * rt + 0x20 * rd + sa
    requires || (0x18 <= funct <= 0x1B && (rd != 0 || sa != 0))
             || ((funct == 0x11 || funct == 0x13) && (rt != 0 || rd != 0 || sa != 0))
             || ((funct == 0x10 || funct == 0x12) && (rs != 0 || rt != 0 || sa != 0))
    ensures DoDivMult(insn, funct + 0x40, g) == Outcome(INVALID, g)
  {
    hide Op.FieldRs, Op.FieldRt, Op.FieldRd, Op.FieldSa, Rs, Rt, Divide, Product;
    var low := insn / 0x40;
    assert low % 32 == low % 0x400 % 32 == sa;
  }

  // ----- Register and immediate -----

  /** The low half of a word with immediate `imm`. */
  predicate Immediate(imm: int) { -0x8000 <= imm < 0x8000 }

  lemma SignedImmediate(op: nat, rs: nat, rt: nat, imm: int)
    requires op < 64 && rs < 32 && rt < 32 && Immediate(imm)
    ensures SImm(IWord(op, rs, rt, imm % 0x1_0000)) == imm
    ensures UImm(IWord(op, rs, rt, imm % 0x1_0000)) == imm % 0x1_0000_0000
  {
    hide IWord;
    IFields(op, rs, rt, imm % 0x1_0000);
  }

  lemma AluiStep(c: Codec, m: State, op: nat, rs: nat, rt: nat, low: nat)
    requires rs < 32 && rt < 32 && low < 0x1_0000 && IsAlui(op) && op < 64 && Fetched(c, m, IWord(op, rs, rt, low))
    ensures Step(c, m) == Ended(m, DoAlui(IWord(op, rs, rt, low), op, m.core.g))
  {
    hide DoAlui, Step, Op.Decode, IWord, Fetched;
    DecodeI(op, rs, rt, low);
    AluiDispatch(c, m, IWord(op, rs, rt, low), op);
    GprStep(c, m, IWord(op, rs, rt, low), op, DoAlui(IWord(op, rs, rt, low), op, m.core.g));
  }

  lemma AluiDispatch(c: Codec, m: State, insn: Word, op: int)
    requires IsAlui(op)
    ensures Dispatch(c, insn, op, m) == WithGprs(m, DoAlui(insn, op, m.core.g))
  {
    hide DoAlui;
  }

  /** ADDI 0x08, ADDIU 0x09, SLTI 0x0A and SLTIU 0x0B. The immediate is sign-extended, for the unsigned
      comparison too. */
  function ImmediateResult(m: State, op: nat, rt: nat, x: Word, imm: int): Outcome<State>
    requires rt < 32
  {
    if op == 0x08 then SetTrapping(m, rt, Int(x) + imm)
    else if op == 0x09 then Set(m, rt, x + imm)
    else if op == 0x0A then Set(m, rt, if Int(x) < imm then 1 else 0)
    else Set(m, rt, if x < imm % 0x1_0000_0000 then 1 else 0)
  }

  lemma ImmediateStep(c: Codec, m: State, op: nat, rs: nat, rt: nat, imm: int)
    requires 0x08 <= op <= 0x0B && rs < 32 && rt < 32 && Immediate(imm)
    requires Fetched(c, m, IWord(op, rs, rt, imm % 0x1_0000))
    ensures Step(c, m) == ImmediateResult(m, op, rt, Reg(m, rs), imm)
  {
    hide DoAlui, Step, IWord, Fetched, Op.FieldRs, Op.FieldRt, ImmediateResult, SImm, UImm;
    var low := imm % 0x1_0000;
    IFields(op, rs, rt, low);
    SignedImmediate(op, rs, rt, imm);
    AluiStep(c, m, op, rs, rt, low);
    ImmediateValue(m, IWord(op, rs, rt, low), op, rt, Reg(m, rs), imm);
  }

  lemma ImmediateValue(m: State, insn: Word, op: nat, rt: nat, x: Word, imm: int)
    requires 0x08 <= op <= 0x0B && Op.FieldRt(insn) == rt && Rs(insn, m.core.g.r) == x && Immediate(imm)
    requires SImm(insn) == imm && UImm(insn) == imm % 0x1_0000_0000
    ensures Ended(m, DoAlui(insn, op, m.core.g)) == ImmediateResult(m, op, rt, x, imm)
  {
    hide Op.FieldRs, Op.FieldRt, Rs, SImm, UImm, Behind, Signed, Int;
    IntIsSigned(x);
    ImmediateSums(x, imm);
  }

  lemma ImmediateSums(x: Word, imm: int)
    ensures (Signed(x) + imm) % 0x1_0000_0000 == (0 + x + imm) % 0x1_0000_0000
    ensures (0 + x + imm % 0x1_0000_0000) % 0x1_0000_0000 == (0 + x + imm) % 0x1_0000_0000
  {
  }

  /** ANDI 0x0C, ORI 0x0D and XORI 0x0E with the low half zero-extended, digit by digit. */
  lemma LogicImmediateStep(c: Codec, m: State, op: nat, rs: nat, rt: nat, low: nat) returns (v: Word)
    requires 0x0C <= op <= 0x0E && rs < 32 && rt < 32 && low < 0x1_0000 && Fetched(c, m, IWord(op, rs, rt, low))
    ensures Step(c, m) == Set(m, rt, v)
    ensures forall k: nat {:trigger BitAt(v, k)} :: k < 32 ==>
              BitAt(v, k) == LogicBit(op, BitAt(Reg(m, rs), k), BitAt(low, k))
  {
    hide DoAlui, Step, IWord, Fetched, Op.FieldRs, Op.FieldRt, Bitwise, BitAt;
    IFields(op, rs, rt, low);
    AluiStep(c, m, op, rs, rt, low);
    var x, insn := Reg(m, rs), IWord(op, rs, rt, low);
    v := LogicImmediateValue(m, insn, op, rt, x, low);
  }

  lemma LogicImmediateValue(m: State, insn: Word, op: nat, rt: nat, x: Word, low: nat) returns (v: Word)
    requires 0x0C <= op <= 0x0E && Op.FieldRt(insn) == rt && Rs(insn, m.core.g.r) == x && insn % 0x1_0000 == low
    ensures Ended(m, DoAlui(insn, op, m.core.g)) == Set(m, rt, v)
    ensures forall k: nat {:trigger BitAt(v, k)} :: k < 32 ==> BitAt(v, k) == LogicBit(op, BitAt(x, k), BitAt(low, k))
  {
    hide Op.FieldRs, Op.FieldRt, Rs, Bitwise, BitAt;
    v := if op == 0x0C then And(x, low) else if op == 0x0D then Or(x, low) else Xor(x, low);
    forall k: nat {:trigger BitAt(v, k)} | k < 32
      ensures BitAt(v, k) == LogicBit(op, BitAt(x, k), BitAt(low, k))
    {
      LogicDigit(op, x, low, k);
    }
  }
}
