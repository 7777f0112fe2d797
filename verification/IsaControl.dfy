/** Jumps, branches and traps in numbers: what a step does on each instruction word. */
module IsaControl {
  import opened Bits
  import opened Memory
  import opened Machine
  import opened Isa
  import Op = Opcodes
  import T = TwoPc

  // ----- States -----

  /** A control transfer taken: the next word is the delay slot, and PC the target. */
  function Taken(m: State, r: RegFile, target: int): Outcome<State> {
    Outcome(OK, State(Core(m.core.g.(r := r), target % 0x1_0000_0000, (m.core.pc + 4) % 0x1_0000_0000), m.mem))
  }

  /** One not taken. */
  function NotTaken(m: State, r: RegFile): Outcome<State> {
    Outcome(OK, State(Core(m.core.g.(r := r), (m.core.pc + 4) % 0x1_0000_0000, 0), m.mem))
  }

  /** Register `i` linked to the return address; register 0 stays. */
  function Link(m: State, i: nat): RegFile
    requires i < 32
  {
    if i == 0 then m.core.g.r else m.core.g.r[i := (m.core.pc + 8) % 0x1_0000_0000]
  }

  /** An instruction that is fetched lies below the end of memory, so the word behind it is not at 0. */
  lemma FetchedBelowTop(c: Codec, m: State, insn: Word)
    requires Fetched(c, m, insn)
    ensures m.core.ds == 0 ==> m.core.pc + 4 < 0x1_0000_0000
  {
  }

  lemma TransferStep(c: Codec, m: State, insn: Word, op: int)
    requires Fetched(c, m, insn) && op == Op.Decode(insn) && IsTransfer(op)
    ensures m.core.ds == 0 ==> m.core.pc + 4 < 0x1_0000_0000
    ensures var o := if IsJump(op) then DoJump(insn, op, m.core) else DoBranch(insn, op, m.core);
            && (o.exn != OK ==> Step(c, m) == Outcome(o.exn, m.(core := o.st)))
            && (o.exn == OK ==> m.core.ds == 0 && Step(c, m) == Outcome(OK, m.(core := Advance(o.st, false))))
  {
    hide DoJump, DoBranch, Step, Op.Decode, Fetched, Advance;
    FetchedBelowTop(c, m, insn);
    StepIs(c, m, insn, op);
    TransferDispatch(c, m, insn, op);
    if m.core.ds != 0 {
      InSlotRejected(insn, op, m.core);
    }
  }

  lemma TransferDispatch(c: Codec, m: State, insn: Word, op: int)
    requires IsTransfer(op)
    ensures Dispatch(c, insn, op, m) == WithCore(m, if IsJump(op) then DoJump(insn, op, m.core) else DoBranch(insn, op, m.core))
  {
    hide DoJump, DoBranch;
  }

  lemma InSlotRejected(insn: Word, op: int, core: Core)
    requires core.ds != 0
    ensures DoJump(insn, op, core) == Outcome(INVALID, core) && DoBranch(insn, op, core) == Outcome(INVALID, core)
  {
  }

  // ----- Branches -----

  /** The condition of a branch: opcodes 4 to 7, or 0x80 and the RT field under opcode 1. */
  predicate Condition(number: nat, x: int, y: int) {
    (number == 0x04 && x == y) || (number == 0x05 && x != y) || (number == 0x06 && x <= 0) || (number == 0x07 && x > 0) ||
    ((number == 0x80 || number == 0x90) && x < 0) || ((number == 0x81 || number == 0x91) && x >= 0)
  }

  /** A branch goes to PC + 4 + 4 * offset if its condition holds, else it moves on; BLTZAL and BGEZAL link
      first, and then read their register. In a delay slot a branch is invalid. */
  function BranchResult(m: State, number: nat, rs: nat, y: int, offset: int): Outcome<State>
    requires rs < 32
  {
    var r := if number == 0x90 || number == 0x91 then Link(m, 31) else m.core.g.r;
    if m.core.ds != 0 then Outcome(INVALID, m)
    else if Condition(number, Int(r[rs]), y) then Taken(m, r, m.core.pc + 4 + 4 * offset)
    else NotTaken(m, r)
  }

  /** BEQ 4 and BNE 5. */
  lemma EqualBranchStep(c: Codec, m: State, op: nat, rs: nat, rt: nat, offset: int)
    requires (op == 4 || op == 5) && rs < 32 && rt < 32 && Immediate(offset)
    requires Fetched(c, m, IWord(op, rs, rt, offset % 0x1_0000))
    ensures Step(c, m) == BranchResult(m, op, rs, Int(Reg(m, rt)), offset)
  {
    hide DoBranch, Step, IWord, Fetched, Op.Decode, Op.FieldRs, Op.FieldRt, BranchResult, SImm;
    var insn := IWord(op, rs, rt, offset % 0x1_0000);
    IFields(op, rs, rt, offset % 0x1_0000);
    SignedImmediate(op, rs, rt, offset);
    DecodeI(op, rs, rt, offset % 0x1_0000);
    TransferStep(c, m, insn, op);
    BranchValue(m, insn, op, rs, Reg(m, rt), offset);
  }

  /** BLEZ 6 and BGTZ 7; their RT field has to be zero. */
  lemma ZeroBranchStep(c: Codec, m: State, op: nat, rs: nat, rt: nat, offset: int)
    requires (op == 6 || op == 7) && rs < 32 && rt < 32 && Immediate(offset)
    requires Fetched(c, m, IWord(op, rs, rt, offset % 0x1_0000))
    ensures Step(c, m) == if rt != 0 then Outcome(INVALID, m) else BranchResult(m, op, rs, 0, offset)
  {
    hide DoBranch, Step, IWord, Fetched, Op.Decode, Op.FieldRs, Op.FieldRt, BranchResult, SImm;
    var insn := IWord(op, rs, rt, offset % 0x1_0000);
    IFields(op, rs, rt, offset % 0x1_0000);
    SignedImmediate(op, rs, rt, offset);
    DecodeI(op, rs, rt, offset % 0x1_0000);
    TransferStep(c, m, insn, op);
    if rt == 0 {
      BranchValue(m, insn, op, rs, 0, offset);
    } else {
      BranchReserved(insn, op, m.core);
    }
  }

  /** Opcode 1: BLTZ 0, BGEZ 1, BLTZAL 0x10 and BGEZAL 0x11 in the RT field; other numbers are invalid. */
  lemma SignBranchStep(c: Codec, m: State, number: nat, rs: nat, offset: int)
    requires number < 32 && rs < 32 && Immediate(offset)
    requires Fetched(c, m, IWord(1, rs, number, offset % 0x1_0000))
    ensures Step(c, m) == if number == 0 || number == 1 || number == 0x10 || number == 0x11
                          then BranchResult(m, 0x80 + number, rs, 0, offset)
                          else Outcome(INVALID, m)
  {
    hide DoBranch, Step, IWord, Fetched, Op.Decode, Op.FieldRs, Op.FieldRt, BranchResult, SImm;
    var insn := IWord(1, rs, number, offset % 0x1_0000);
    IFields(1, rs, number, offset % 0x1_0000);
    SignedImmediate(1, rs, number, offset);
    DecodeSign(rs, number, offset % 0x1_0000);
    if number == 0 || number == 1 || number == 0x10 || number == 0x11 {
      TransferStep(c, m, insn, 0x80 + number);
      BranchValue(m, insn, 0x80 + number, rs, 0, offset);
    } else {
      Undecodable(c, m, insn);
    }
  }

  lemma DecodeSign(rs: nat, number: nat, low: nat)
    requires number < 32 && rs < 32 && low < 0x1_0000
    ensures Op.Decode(IWord(1, rs, number, low)) ==
            if number == 0 || number == 1 || number == 0x10 || number == 0x11 then 0x80 + number else -1
  {
    IFields(1, rs, number, low);
    hide IWord, Op.FieldRt;
  }

  lemma Undecodable(c: Codec, m: State, insn: Word)
    requires Fetched(c, m, insn) && Op.Decode(insn) == -1
    ensures Step(c, m) == Outcome(INVALID, m)
  {
    hide Op.Decode, PeekUw, Dispatch;
  }

  lemma BranchValue(m: State, insn: Word, op: nat, rs: nat, y: Word, offset: int)
    requires IsBranch(op) && Op.FieldRs(insn) == rs && SImm(insn) == offset
    requires m.core.ds == 0 ==> m.core.pc + 4 < 0x1_0000_0000
    requires op == 4 || op == 5 ==> Rt(insn, m.core.g.r) == y
    requires op == 6 || op == 7 ==> Op.FieldRt(insn) == 0
    requires op != 4 && op != 5 ==> y == 0
    ensures var o, result := DoBranch(insn, op, m.core), BranchResult(m, op, rs, Int(y), offset);
            if o.exn != OK then result == Outcome(o.exn, m.(core := o.st))
            else m.core.ds == 0 && result == Outcome(OK, m.(core := Advance(o.st, false)))
  {
    hide Op.FieldRt, Op.FieldRs, SImm, Int, Signed;
    IntAgrees(y);
    IntAgrees(m.core.g.r[rs]);
    IntAgrees((m.core.pc + 8) % 0x1_0000_0000);
    SameInt(m.core.g.r[rs], y);
    ToWordTwice(m.core.pc + 4, 4 * offset);
    BranchAddress(m.core.pc, offset);
  }

  lemma IntAgrees(x: Word)
    ensures Int(x) == Signed(x) && Int(0) == 0
  {
  }

  lemma SameInt(x: Word, y: Word)
    ensures Int(x) == Int(y) <==> x == y
  {
  }

  lemma BranchAddress(pc: Word, offset: int)
    ensures ToWord(ToWord(pc + 4) + 4 * offset) == (pc + 4 + 4 * offset) % 0x1_0000_0000
  {
  }

  lemma BranchReserved(insn: Word, op: nat, core: Core)
    requires (op == 6 || op == 7) && Op.FieldRt(insn) != 0
    ensures DoBranch(insn, op, core) == Outcome(INVALID, core)
  {
    hide Op.FieldRt, Op.FieldRs;
  }

  // ----- Jumps -----

  /** Where J and JAL go, in numbers: the slot's address without its low 27 bits, with four times the 26-bit
      field put in; bit 27 is set if either has it. */
  function JumpTarget(pc: Word, field: nat): int
    requires field < 0x400_0000
  {
    var slot := (pc + 4) % 0x1_0000_0000;
    var high, carry := slot / 0x800_0000, 4 * field / 0x800_0000;
    0x800_0000 * (if high % 2 == 0 then high + carry else high) + 4 * field % 0x800_0000
  }

  /** J 2 and JAL 3. */
  lemma JumpStep(c: Codec, m: State, op: nat, field: nat)
    requires (op == 2 || op == 3) && field < 0x400_0000 && Fetched(c, m, 0x400_0000 * op + field)
    ensures Step(c, m) == if m.core.ds != 0 then Outcome(INVALID, m)
                          else Taken(m, if op == 3 then Link(m, 31) else m.core.g.r, JumpTarget(m.core.pc, field))
  {
    hide DoJump, Step, Fetched, Op.Decode, Link, JumpTarget;
    var insn := 0x400_0000 * op + field;
    Op.DecodeMain(op, field);
    TransferStep(c, m, insn, op);
    DivModUnique(insn, 0x400_0000, op, field);
    TargetIs(m.core.pc, insn, field);
    JumpValue(m, insn, op, JumpTarget(m.core.pc, field));
  }

  lemma TargetIs(pc: Word, insn: Word, field: nat)
    requires insn % 0x400_0000 == field
    ensures RegionTarget(ToWord(pc + 4), insn) == JumpTarget(pc, field)
  {
    hide Bitwise, Pow2;
    var nds, x := ToWord(pc + 4), 4 * field;
    var h, l, b, xl := nds / 0x800_0000, nds % 0x800_0000, x / 0x800_0000, x % 0x800_0000;
    T.KeepHigh(nds, h, l);
    T.OrHigh(0x800_0000 * h, h, x, b, xl);
    T.OrLowBit(h, b);
  }

  lemma JumpValue(m: State, insn: Word, op: nat, target: Word)
    requires (op == 2 || op == 3) && RegionTarget(ToWord(m.core.pc + 4), insn) == target
    requires m.core.ds == 0 ==> m.core.pc + 4 < 0x1_0000_0000
    ensures var o := DoJump(insn, op, m.core);
            if m.core.ds != 0 then o == Outcome(INVALID, m.core)
            else
              && o.exn == OK
              && Outcome(OK, m.(core := Advance(o.st, false))) == Taken(m, if op == 3 then Link(m, 31) else m.core.g.r, target)
  {
    hide RegionTarget;
  }

  /** JR 8, which has no other field. */
  lemma JumpRegisterStep(c: Codec, m: State, rs: nat)
    requires rs < 32 && Fetched(c, m, RWord(rs, 0, 0, 0, 0x08))
    ensures Step(c, m) == if m.core.ds != 0 then Outcome(INVALID, m) else Taken(m, m.core.g.r, Reg(m, rs))
  {
    hide DoJump, Step, RWord, Fetched, Op.Decode, Op.FieldRs, Op.FieldRt, Op.FieldRd, Op.FieldSa;
    RFields(rs, 0, 0, 0, 0x08);
    DecodeR(rs, 0, 0, 0, 0x08);
    TransferStep(c, m, RWord(rs, 0, 0, 0, 0x08), 0x48);
    RegisterJumpValue(m, RWord(rs, 0, 0, 0, 0x08), 0x48, rs, 0);
  }

  /** JALR 9 links RD and then reads RS. */
  lemma JumpLinkRegisterStep(c: Codec, m: State, rs: nat, rd: nat, sa: nat)
    requires rs < 32 && rd < 32 && sa < 32 && Fetched(c, m, RWord(rs, 0, rd, sa, 0x09))
    ensures Step(c, m) == if m.core.ds != 0 then Outcome(INVALID, m) else Taken(m, Link(m, rd), Link(m, rd)[rs])
  {
    hide DoJump, Step, RWord, Fetched, Op.Decode, Op.FieldRs, Op.FieldRt, Op.FieldRd, Op.FieldSa, Link;
    RFields(rs, 0, rd, sa, 0x09);
    DecodeR(rs, 0, rd, sa, 0x09);
    TransferStep(c, m, RWord(rs, 0, rd, sa, 0x09), 0x49);
    RegisterJumpValue(m, RWord(rs, 0, rd, sa, 0x09), 0x49, rs, rd);
  }

  /** The unused fields of JR have to be zero, and RT of JALR. */
  lemma ReservedJump(c: Codec, m: State, rs: nat, rt: nat, rd: nat, sa: nat, funct: nat)
    requires rs < 32 && rt < 32 && rd < 32 && sa < 32
    requires (funct == 8 && (rt != 0 || rd != 0 || sa != 0)) || (funct == 9 && rt != 0)
    requires Fetched(c, m, RWord(rs, rt, rd, sa, funct))
    ensures Step(c, m) == Outcome(INVALID, m)
  {
    hide DoJump, Step, RWord, Fetched, Op.Decode, Op.FieldRs, Op.FieldRt, Op.FieldRd, Op.FieldSa;
    RFields(rs, rt, rd, sa, funct);
    DecodeR(rs, rt, rd, sa, funct);
    TransferStep(c, m, RWord(rs, rt, rd, sa, funct), funct + 0x40);
    ReservedJumpValue(RWord(rs, rt, rd, sa, funct), funct, m.core);
  }

  lemma ReservedJumpValue(insn: Word, funct: nat, core: Core)
    requires (funct == 8 && insn / 0x40 % 0x8000 != 0) || (funct == 9 && Op.FieldRt(insn) != 0)
    ensures DoJump(insn, funct + 0x40, core) == Outcome(INVALID, core)
  {
    hide Op.FieldRs, Op.FieldRt, Op.FieldRd;
  }

  lemma RegisterJumpValue(m: State, insn: Word, op: nat, rs: nat, rd: nat)
    requires rs < 32 && rd < 32 && Op.FieldRs(insn) == rs && Op.FieldRd(insn) == rd
    requires m.core.ds == 0 ==> m.core.pc + 4 < 0x1_0000_0000
    requires (op == 0x48 && rd == 0 && insn / 0x40 % 0x8000 == 0) || (op == 0x49 && Op.FieldRt(insn) == 0)
    ensures var o := DoJump(insn, op, m.core);
            if m.core.ds != 0 then o == Outcome(INVALID, m.core)
            else
              && o.exn == OK
              && Outcome(OK, m.(core := Advance(o.st, false))) == Taken(m, Link(m, rd), Link(m, rd)[rs])
  {
    hide Op.FieldRs, Op.FieldRt, Op.FieldRd;
  }

  // ----- Traps and invalid words -----

  /** SYSCALL, function number 0x0C, with its 20-bit code, and BREAK, 0x0D, with its code in bits 16 to 25:
      the exception, from an unchanged state, and outside a delay slot the code in the report. */
  lemma TrapStep(c: Codec, m: State, code: nat, rest: nat)
    requires code < 0x10_0000 && rest < 0x400
    ensures Fetched(c, m, 0x40 * code + 0x0C) ==>
              && Step(c, m) == Outcome(Exn.SYSCALL, m)
              && (m.core.ds == 0 ==> BreakCode(c, m) == Report(Some(0x4C), code))
    ensures code < 0x400 && Fetched(c, m, 0x1_0000 * code + 0x40 * rest + 0x0D) ==>
              && Step(c, m) == Outcome(Exn.BREAK, m)
              && (m.core.ds == 0 ==> BreakCode(c, m) == Report(Some(0x4D), code))
  {
    hide Step, Fetched, Op.Decode, TrapIn, PeekUw;
    SyscallWord(code);
    if Fetched(c, m, 0x40 * code + 0x0C) {
      TrapEnds(c, m, 0x40 * code + 0x0C);
    }
    if code < 0x400 {
      BreakWord(code, rest);
      if Fetched(c, m, 0x1_0000 * code + 0x40 * rest + 0x0D) {
        TrapEnds(c, m, 0x1_0000 * code + 0x40 * rest + 0x0D);
      }
    }
  }

  lemma SyscallWord(code: nat)
    requires code < 0x10_0000
    ensures Op.Decode(0x40 * code + 0x0C) == 0x4C && TrapIn(0x40 * code + 0x0C) == SyscallTrap(code)
  {
    hide Op.Decode;
    Op.DecodeSpecial(0x4C, code);
    DivModUnique(0x40 * code + 0x0C, 0x40, code, 0x0C);
  }

  lemma BreakWord(code: nat, rest: nat)
    requires code < 0x400 && rest < 0x400
    ensures Op.Decode(0x1_0000 * code + 0x40 * rest + 0x0D) == 0x4D
    ensures TrapIn(0x1_0000 * code + 0x40 * rest + 0x0D) == BreakTrap(code)
  {
    hide Op.Decode;
    Op.DecodeSpecial(0x4D, 0x400 * code + rest);
    DivModUnique(0x1_0000 * code + 0x40 * rest + 0x0D, 0x1_0000, code, 0x40 * rest + 0x0D);
  }

  lemma TrapEnds(c: Codec, m: State, insn: Word)
    requires Fetched(c, m, insn) && TrapIn(insn).SyscallTrap? == (Op.Decode(insn) == 0x4C)
    requires Op.Decode(insn) == 0x4C || Op.Decode(insn) == 0x4D
    ensures Step(c, m) == Outcome(if Op.Decode(insn) == 0x4C then Exn.SYSCALL else Exn.BREAK, m)
    ensures m.core.ds == 0 ==>
              BreakCode(c, m) == Report(Some(Op.Decode(insn)), match TrapIn(insn) case NoTrap => -1 case SyscallTrap(n) => n case BreakTrap(n) => n)
  {
    hide Op.Decode, TrapIn, PeekUw;
    StepIs(c, m, insn, Op.Decode(insn));
  }

  /** The opcodes and the function numbers that are not in MIPS I. */
  predicate NoOpcode(n: nat) {
    0x10 <= n <= 0x1F || n == 0x27 || n == 0x2C || n == 0x2D || 0x2F <= n < 0x40
  }

  predicate NoFunction(n: nat) {
    || n == 1 || n == 5 || n == 0x0A || n == 0x0B || n == 0x0E || n == 0x0F || 0x14 <= n <= 0x17
    || 0x1C <= n <= 0x1F || n == 0x28 || n == 0x29 || 0x2C <= n < 0x40
  }

  lemma InvalidOpcodeStep(c: Codec, m: State, op: nat, rs: nat, rt: nat, low: nat)
    requires NoOpcode(op) && rs < 32 && rt < 32 && low < 0x1_0000 && Fetched(c, m, IWord(op, rs, rt, low))
    ensures Step(c, m) == Outcome(INVALID, m)
  {
    hide Step, Fetched, Op.Decode, IWord;
    DecodeI(op, rs, rt, low);
    Undecodable(c, m, IWord(op, rs, rt, low));
  }

  lemma InvalidFunctionStep(c: Codec, m: State, rs: nat, rt: nat, rd: nat, sa: nat, funct: nat)
    requires NoFunction(funct) && rs < 32 && rt < 32 && rd < 32 && sa < 32 && Fetched(c, m, RWord(rs, rt, rd, sa, funct))
    ensures Step(c, m) == Outcome(INVALID, m)
  {
    hide Step, Fetched, Op.Decode, RWord;
    DecodeR(rs, rt, rd, sa, funct);
    Undecodable(c, m, RWord(rs, rt, rd, sa, funct));
  }
}
