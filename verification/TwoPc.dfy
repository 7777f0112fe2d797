/** The architectural machine with two program counters, and the interpreter as its refinement. */
module TwoPc {
  import opened Bits
  import opened Memory
  import opened Machine
  import opened StepProperties
  import Op = Opcodes

  /** The instruction at `pc` executes now and the one at `npc` next. */
  datatype Arch = Arch(g: Gprs, pc: Word, npc: Word, mem: Ram)

  function View(m: State): Arch {
    if m.core.ds != 0 then Arch(m.core.g, m.core.ds, m.core.pc, m.mem)
    else Arch(m.core.g, m.core.pc, ToWord(m.core.pc + 4), m.mem)
  }

  // ----- The architectural definition of control transfers -----

  /** The register that receives the return address, 0 for none. */
  function LinkRegister(insn: Word): (i: nat)
    ensures i < 32
  {
    var op := Op.Decode(insn);
    if op == Op.JAL || op == Op.BLTZAL || op == Op.BGEZAL then 31
    else if op == Op.JALR then Op.FieldRd(insn)
    else 0
  }

  function Linked(insn: Word, pc: Word, r: RegFile): RegFile {
    Put(r, LinkRegister(insn), ToWord(pc + 8))
  }

  predicate ConditionHolds(op: int, rs: int, rt: int) {
    match op
    case 0x04 => rs == rt
    case 0x05 => rs != rt
    case 0x06 => rs <= 0
    case 0x07 => rs > 0
    case 0x80 => rs < 0
    case 0x81 => rs >= 0
    case 0x90 => rs < 0
    case 0x91 => rs >= 0
    case _ => false
  }

  datatype Next = Sequential | Target(address: Word)

  /** The 256 MB region rule of the architecture. */
  function ArchRegionTarget(nds: Word, insn: Word): Word {
    nds - nds % 0x1000_0000 + 4 * (insn % 0x400_0000)
  }

  /** Where the instruction at `pc` transfers to, reading its operands from `r`. */
  function Destination(insn: Word, pc: Word, r: RegFile): Next {
    var op := Op.Decode(insn);
    if op == Op.J || op == Op.JAL then Target(ArchRegionTarget(ToWord(pc + 4), insn))
    else if op == Op.JR || op == Op.JALR then Target(Rs(insn, r))
    else if IsBranch(op) && ConditionHolds(op, Signed(Rs(insn, r)), Signed(Rt(insn, r))) then
      Target(ToWord(pc + 4 + 4 * SImm(insn)))
    else Sequential
  }

  /** What a non-transfer instruction does to registers and memory, on a machine with no notion of PC. */
  function Effect(c: Codec, insn: Word, g: Gprs, mem: Ram): (Gprs, Ram) {
    var m := Dispatch(c, insn, Op.Decode(insn), State(Core(g, 0, 0), mem)).st;
    (m.core.g, m.mem)
  }

  /** One architectural step: the delayed transfer takes effect through `npc`. */
  function ArchStep(c: Codec, a: Arch): Arch {
    match PeekUw(c, a.mem, a.pc)
    case Throw(_) => a
    case Value(insn) =>
      if IsTransfer(Op.Decode(insn)) then
        var r := Linked(insn, a.pc, a.g.r);
        Arch(a.g.(r := r), a.npc,
             match Destination(insn, a.pc, r) case Target(t) => t case Sequential => ToWord(a.npc + 4), a.mem)
      else
        var (g, mem) := Effect(c, insn, a.g, a.mem);
        Arch(g, a.npc, ToWord(a.npc + 4), mem)
  }

  function ArchRun(c: Codec, a: Arch, n: nat): Arch
    decreases n
  {
    if n == 0 then a else ArchRun(c, ArchStep(c, a), n - 1)
  }

  // ----- Refinement -----

  lemma SignedEqual(x: Word, y: Word)
    ensures x == y <==> Signed(x) == Signed(y)
  {
  }

  /** The interpreter's mask and the architecture's agree on the target of the instruction at `pc`: it is
      not J or JAL, or bit 27 of the slot's address is clear or set by the instruction anyway. */
  predicate RegionHolds(insn: Word, pc: Word) {
    var op := Op.Decode(insn);
    op == Op.J || op == Op.JAL ==> ToWord(pc + 4) / 0x800_0000 % 2 == 0 || 4 * (insn % 0x400_0000) >= 0x800_0000
  }

  /** An accepted jump arms the slot behind it and links; it goes to the architecture's destination if and
      only if RegionHolds. */
  lemma JumpRefines(insn: Word, op: int, core: Core)
    requires op == Op.Decode(insn) && IsJump(op) && DoJump(insn, op, core).exn == OK
    ensures var core' := DoJump(insn, op, core).st; var r := Linked(insn, core.pc, core.g.r);
            && core.ds == 0 && core'.ds == ToWord(core.pc + 4) && core'.g == core.g.(r := r)
            && Destination(insn, core.pc, r).Target?
            && (Destination(insn, core.pc, r) == Target(core'.pc) <==> RegionHolds(insn, core.pc))
  {
    hide RegionTarget, ArchRegionTarget, Op.Decode;
    RegionRule(ToWord(core.pc + 4), insn);
  }

  lemma BranchRefines(insn: Word, op: int, core: Core)
    requires op == Op.Decode(insn) && IsBranch(op) && DoBranch(insn, op, core).exn == OK
    ensures var core' := DoBranch(insn, op, core).st; var r := Linked(insn, core.pc, core.g.r);
            && core.ds == 0 && core'.g == core.g.(r := r)
            && (match Destination(insn, core.pc, r)
                case Target(t) => core'.ds == ToWord(core.pc + 4) && core'.pc == t
                case Sequential => core'.ds == 0 && core'.pc == core.pc)
  {
    hide Op.Decode;
    var r := Linked(insn, core.pc, core.g.r);
    ToWordTwice(core.pc + 4, 4 * SImm(insn));
    SignedEqual(Rs(insn, r), Rt(insn, r));
  }

  /** Handlers other than transfers do not look at PC or at the delay slot. */
  lemma EffectIgnoresPc(c: Codec, insn: Word, op: int, m: State)
    requires op == Op.Decode(insn) && !IsTransfer(op)
    ensures var o := Dispatch(c, insn, op, m);
            && (o.st.core.g, o.st.mem) == Effect(c, insn, m.core.g, m.mem)
            && o.st.core.pc == m.core.pc && o.st.core.ds == m.core.ds
  {
    hide Op.Decode, DoAlui, DoAlu3, DoDivMult, PeekUb, PeekUh, PeekUw, PokeUb, PokeUh, PokeUw,
         LoadLeft, LoadRight, StoreLeft, StoreRight, PutRes;
  }

  /** An executed instruction lies below the end of memory, so its delay slot is not address 0. */
  lemma FetchedBelowTop(c: Codec, m: State)
    requires Step(c, m).exn == OK
    ensures Fetch(c, m).Value? && FetchAddress(m.core) + 4 < WORD
  {
    hide Execute;
  }

  /** A successful step is a step of the two-PC machine if and only if RegionHolds for the instruction. */
  lemma StepRefines(c: Codec, m: State)
    requires Step(c, m).exn == OK
    ensures Fetch(c, m).Value?
    ensures View(Step(c, m).st) == ArchStep(c, View(m)) <==> RegionHolds(Fetch(c, m).value, FetchAddress(m.core))
  {
    hide PeekUw, Op.Decode, DoJump, DoBranch, DoAlui, DoAlu3, DoDivMult, DoLoadStore, Linked, Destination;
    FetchedBelowTop(c, m);
    var insn := Fetch(c, m).value;
    var op := Op.Decode(insn);
    if IsJump(op) {
      JumpRefines(insn, op, m.core);
    } else if IsBranch(op) {
      BranchRefines(insn, op, m.core);
      ToWordTwice(m.core.pc + 4, 4);
    } else {
      EffectIgnoresPc(c, insn, op, m);
    }
  }

  /** RegionHolds for every instruction of a run of `n` steps. */
  ghost predicate RegionHoldsThroughout(c: Codec, m: State, n: nat)
    decreases n
  {
    n > 0 && Step(c, m).exn == OK ==>
      && Fetch(c, m).Value? && RegionHolds(Fetch(c, m).value, FetchAddress(m.core))
      && RegionHoldsThroughout(c, Step(c, m).st, n - 1)
  }

  /** Over whole runs. */
  lemma {:induction false} RunRefines(c: Codec, m: State, n: nat)
    requires Run(c, m, n).exn == OK && RegionHoldsThroughout(c, m, n)
    ensures View(Run(c, m, n).st) == ArchRun(c, View(m), n)
    decreases n
  {
    hide Step, ArchStep, View, RegionHolds;
    if n > 0 {
      StepRefines(c, m);
      RunRefines(c, Step(c, m).st, n - 1);
    }
  }

  /** In a memory below 128 MB the condition always holds. */
  lemma {:induction false} SmallMemory(c: Codec, m: State, n: nat)
    requires MemSize(m.mem) < 0x800_0000
    ensures RegionHoldsThroughout(c, m, n)
    decreases n
  {
    hide Step, Fetch, RegionHolds;
    if n > 0 && Step(c, m).exn == OK {
      SmallMemoryStep(c, m);
      SmallMemory(c, Step(c, m).st, n - 1);
    }
  }

  lemma SmallMemoryStep(c: Codec, m: State)
    requires MemSize(m.mem) < 0x800_0000 && Step(c, m).exn == OK
    ensures Fetch(c, m).Value? && RegionHolds(Fetch(c, m).value, FetchAddress(m.core))
    ensures |Step(c, m).st.mem| == |m.mem|
  {
    hide Step, Op.Decode;
    FetchedBelowTop(c, m);
    StepKeepsControlBlock(c, m);
  }

  /** So there every successful run is a run of the two-PC machine. */
  lemma SmallRunRefines(c: Codec, m: State, n: nat)
    requires MemSize(m.mem) < 0x800_0000 && Run(c, m, n).exn == OK
    ensures View(Run(c, m, n).st) == ArchRun(c, View(m), n)
  {
    hide Run, ArchRun, View;
    SmallMemory(c, m, n);
    RunRefines(c, m, n);
  }

  /** Above 128 MB it can fail: J 0 at 0x0800_1000 stays above instead of going to address 0. */
  lemma JumpLeavesRegion() returns (m: State)
    ensures m.core == RESET_CORE.(pc := 0x800_1000)
    ensures Step(IDENTITY, m).exn == OK && Step(IDENTITY, m).st.core.pc == 0x800_0000
    ensures View(Step(IDENTITY, m).st).npc == 0x800_0000 && ArchStep(IDENTITY, View(m)).npc == 0
  {
    hide RegionTarget, ArchRegionTarget, Op.Decode;
    var mem: Ram := seq(0x200_0402, _ => 0x0800_0000);
    m := State(RESET_CORE.(pc := 0x800_1000), mem);
    assert Fetch(IDENTITY, m) == Value(0x0800_0000) by {
      assert mem[0x200_0400] == 0x0800_0000;
    }
    JumpToZero();
  }

  lemma JumpToZero()
    ensures Op.Decode(0x0800_0000) == Op.J
    ensures RegionTarget(0x800_1004, 0x0800_0000) == 0x800_0000 && ArchRegionTarget(0x800_1004, 0x0800_0000) == 0
  {
    hide Bitwise, Pow2;
    KeepHigh(0x800_1004, 1, 0x1004);
    OrHigh(0x800_0000, 1, 0, 0, 0);
    OrLowBit(1, 0);
  }

  // ----- Where the interpreter and the architecture manuals part -----

  /** The return address changes nothing for an instruction that links the register it reads: it is what
      a jump finds there anyway, or has the sign a branch finds there. */
  predicate LinkHarmless(insn: Word, pc: Word, r: RegFile) {
    var op, link := Op.Decode(insn), ToWord(pc + 8);
    || op == Op.JAL
    || (op == Op.JALR && Rs(insn, r) == link)
    || ((op == Op.BLTZAL || op == Op.BGEZAL) && (Rs(insn, r) < 0x8000_0000 <==> link < 0x8000_0000))
  }

  /** The operands are read after the link register is written, where the architecture reads them before.
      The destination is the same if and only if the two registers differ, nothing is linked, or the
      return address is harmless. */
  lemma LinkBeforeRead(insn: Word, pc: Word, r: RegFile)
    ensures Destination(insn, pc, Linked(insn, pc, r)) == Destination(insn, pc, r) <==>
            || LinkRegister(insn) == 0
            || LinkRegister(insn) != Op.FieldRs(insn)
            || LinkHarmless(insn, pc, r)
  {
    hide Op.Decode, ArchRegionTarget, ToWord;
  }

  /** BGEZAL on its own link register, which holds a negative number: it branches although it should not. */
  lemma LinkedRegisterTested() returns (m: State, insn: Word)
    ensures m.core.ds == 0 && Fetch(IDENTITY, m) == Value(insn) && Signed(Rs(insn, m.core.g.r)) < 0
    ensures Op.Decode(insn) == Op.BGEZAL && Destination(insn, m.core.pc, m.core.g.r) == Sequential
    ensures Step(IDENTITY, m).exn == OK && Step(IDENTITY, m).st.core.ds == m.core.pc + 4
    ensures Destination(insn, m.core.pc, Linked(insn, m.core.pc, m.core.g.r)) == Target(Step(IDENTITY, m).st.core.pc)
  {
    insn := 0x07F1_0001;
    var mem: Ram := seq(0x401, _ => 0x07F1_0001);
    var core := RESET_CORE.(pc := 0x1000);
    m := State(core.(g := core.g.(r := core.g.r[31 := 0x8000_0000])), mem);
    assert mem[0x400] == insn;
    LinkedBranch();
  }

  lemma LinkedBranch()
    ensures Op.Decode(0x07F1_0001) == Op.BGEZAL && Op.FieldRs(0x07F1_0001) == 31 && SImm(0x07F1_0001) == 1
  {
  }

  /** J and JAL keep one address bit too many: they follow the region rule iff that bit of the delay
      slot's address is clear or the instruction sets it anyway. */
  lemma RegionRule(nds: Word, insn: Word)
    ensures RegionTarget(nds, insn) == ArchRegionTarget(nds, insn) <==>
            nds / 0x800_0000 % 2 == 0 || 4 * (insn % 0x400_0000) >= 0x800_0000
  {
    hide Bitwise, Pow2;
    var x := 4 * (insn % 0x400_0000);
    var h, l, b, xl := nds / 0x800_0000, nds % 0x800_0000, x / 0x800_0000, x % 0x800_0000;
    KeepHigh(nds, h, l);
    OrHigh(0x800_0000 * h, h, x, b, xl);
    OrLowBit(h, b);
  }

  lemma Pow2Of27()
    ensures Pow2(27) == 0x800_0000 && Pow2(5) == 32
  {
    Pow2Bytes();
    assert Pow2(26) == 0x400_0000;
  }

  lemma KeepHigh(nds: Word, h: nat, l: nat)
    requires nds == 0x800_0000 * h + l && l < 0x800_0000 && h < 32
    ensures And(nds, 0xF800_0000) == 0x800_0000 * h
  {
    hide Bitwise;
    Pow2Of27();
    BitwiseConcat(BitOp.AND, 27, h, l, 31, 0);
    AndMask(h, 5);
    BitwiseZero(BitOp.AND, l);
  }

  lemma OrHigh(y: Word, h: nat, x: Word, b: nat, xl: nat)
    requires y == 0x800_0000 * h && x == 0x800_0000 * b + xl && xl < 0x800_0000
    ensures Or(y, x) == 0x800_0000 * Bitwise(BitOp.OR, h, b) + xl
  {
    hide Bitwise;
    Pow2Of27();
    BitwiseConcat(BitOp.OR, 27, h, 0, b, xl);
    BitwiseZero(BitOp.OR, xl);
  }

  lemma OrLowBit(h: nat, b: nat)
    requires b < 2
    ensures Bitwise(BitOp.OR, h, b) == if h % 2 == 0 then h + b else h
  {
    BitwiseStep(BitOp.OR, h, b);
    BitwiseZero(BitOp.OR, h / 2);
  }
}
