/** The interpreter as functions on values: what one instruction, one step and a run do. */
module Machine {
  import opened Bits
  import opened Memory
  import Op = Opcodes

  type RegFile = r: seq<Word> | |r| == 32 witness seq(32, _ => 0)

  datatype Gprs = Gprs(r: RegFile, hi: Word, lo: Word)

  /** Registers with the program counter and the pending delay slot (0 when there is none). */
  datatype Core = Core(g: Gprs, pc: Word, ds: Word)

  datatype State = State(core: Core, mem: Ram)

  /** How a handler ended, with the state it left: a throw keeps whatever was already written. */
  datatype Outcome<+T> = Outcome(exn: Exn, st: T)

  const RESET_CORE := Core(Gprs(seq(32, _ => 0), 0, 0), 0, 0)

  // ----- Operands -----

  function SImm(insn: Word): int { SignedHalf(insn % 0x1_0000) }
  function UImm(insn: Word): Word { ToWord(SImm(insn)) }
  function ZImm(insn: Word): Word { insn % 0x1_0000 }
  function Rs(insn: Word, r: RegFile): Word { r[Op.FieldRs(insn)] }
  function Rt(insn: Word, r: RegFile): Word { r[Op.FieldRt(insn)] }

  function Flag(b: bool): Word { if b then 1 else 0 }

  /** Register write; register 0 is never written. */
  function Put(r: RegFile, i: nat, v: Word): RegFile
    requires i < 32
  {
    if i == 0 then r else r[i := v]
  }

  /** Register write of an expression that may throw; it is not evaluated for register 0. */
  function PutRes(g: Gprs, i: nat, v: Res<Word>): Outcome<Gprs>
    requires i < 32
  {
    if i == 0 then Outcome(OK, g)
    else match v
      case Value(w) => Outcome(OK, g.(r := Put(g.r, i, w)))
      case Throw(e) => Outcome(e, g)
  }

  function PutRt(insn: Word, g: Gprs, v: Word): Outcome<Gprs> {
    Outcome(OK, g.(r := Put(g.r, Op.FieldRt(insn), v)))
  }

  function PutRd(insn: Word, g: Gprs, v: Word): Outcome<Gprs> {
    Outcome(OK, g.(r := Put(g.r, Op.FieldRd(insn), v)))
  }

  function CheckedSum(z: int): Res<Word> {
    if z < -0x8000_0000 || z > 0x7FFF_FFFF then Throw(OVERFLOW) else Value(ToWord(z))
  }

  // ----- ALU -----

  function DoAlui(insn: Word, op: int, g: Gprs): Outcome<Gprs> {
    var rs := Rs(insn, g.r);
    if op == Op.ADDI then PutRes(g, Op.FieldRt(insn), CheckedSum(Signed(rs) + SImm(insn)))
    else if op == Op.ADDIU then PutRt(insn, g, ToWord(rs + UImm(insn)))
    else if op == Op.SLTI then PutRt(insn, g, Flag(Signed(rs) < SImm(insn)))
    else if op == Op.SLTIU then PutRt(insn, g, Flag(rs < UImm(insn)))
    else if op == Op.ANDI then PutRt(insn, g, And(rs, ZImm(insn)))
    else if op == Op.ORI then PutRt(insn, g, Or(rs, ZImm(insn)))
    else if op == Op.XORI then PutRt(insn, g, Xor(rs, ZImm(insn)))
    else Outcome(ABORT, g)
  }

  predicate IsConstantShift(op: int) {
    op == Op.SLL || op == Op.SRL || op == Op.SRA
  }

  function DoAlu3(insn: Word, op: int, g: Gprs): Outcome<Gprs> {
    var rs, rt, sa := Rs(insn, g.r), Rt(insn, g.r), Op.FieldSa(insn);
    if IsConstantShift(op) then
      if Op.FieldRs(insn) != 0 then Outcome(INVALID, g)
      else if op == Op.SLL then PutRd(insn, g, Shl(rt, sa))
      else if op == Op.SRL then PutRd(insn, g, Shr(rt, sa))
      else PutRd(insn, g, Sra(rt, sa))
    else if !IsAlu3(op) then Outcome(ABORT, g)
    else if sa != 0 then Outcome(INVALID, g)
    else if op == Op.SLLV then PutRd(insn, g, Shl(rt, rs % 32))
    else if op == Op.SRLV then PutRd(insn, g, Shr(rt, rs % 32))
    else if op == Op.SRAV then PutRd(insn, g, Sra(rt, rs % 32))
    else if op == Op.ADD then PutRes(g, Op.FieldRd(insn), CheckedSum(Signed(rs) + Signed(rt)))
    else if op == Op.ADDU then PutRd(insn, g, ToWord(rs + rt))
    else if op == Op.SUB then PutRes(g, Op.FieldRd(insn), CheckedSum(Signed(rs) - Signed(rt)))
    else if op == Op.SUBU then PutRd(insn, g, ToWord(rs - rt))
    else if op == Op.AND then PutRd(insn, g, And(rs, rt))
    else if op == Op.OR then PutRd(insn, g, Or(rs, rt))
    else if op == Op.XOR then PutRd(insn, g, Xor(rs, rt))
    else if op == Op.NOR then PutRd(insn, g, Not(Or(rs, rt)))
    else if op == Op.SLT then PutRd(insn, g, Flag(Signed(rs) < Signed(rt)))
    else PutRd(insn, g, Flag(rs < rt))
  }

  /** C division truncates towards zero. */
  function TruncDiv(a: int, b: int): int
    requires b != 0
  {
    var q := Abs(a) / Abs(b);
    if (a < 0) == (b < 0) then q else -q
  }

  function TruncRem(a: int, b: int): int
    requires b != 0
  {
    a - b * TruncDiv(a, b)
  }

  function Divide(a: int, b: int, g: Gprs): Outcome<Gprs> {
    if b == 0 then Outcome(OK, g.(hi := ALL_ONES, lo := ALL_ONES))
    else if a == -0x8000_0000 && b == -1 then Outcome(UNDEFINED, g.(hi := ALL_ONES, lo := ALL_ONES))
    else Outcome(OK, g.(hi := ToWord(TruncRem(a, b)), lo := ToWord(TruncDiv(a, b))))
  }

  /** The two halves of a 64-bit integer. */
  function HighWord(p: int): Word { p % 0x1_0000_0000_0000_0000 / WORD }
  function LowWord(p: int): Word { p % 0x1_0000_0000_0000_0000 % WORD }

  function Product(p: int, g: Gprs): Outcome<Gprs> {
    Outcome(OK, g.(hi := HighWord(p), lo := LowWord(p)))
  }

  function DoDivMult(insn: Word, op: int, g: Gprs): Outcome<Gprs> {
    var rs, rt := Rs(insn, g.r), Rt(insn, g.r);
    var low := insn / 0x40;
    if op == Op.MULT || op == Op.MULTU || op == Op.DIV || op == Op.DIVU then
      if low % 0x400 != 0 then Outcome(INVALID, g)
      else if op == Op.MULT then Product(Signed(rs) * Signed(rt), g)
      else if op == Op.MULTU then Product(rs * rt, g)
      else if op == Op.DIV then Divide(Signed(rs), Signed(rt), g)
      else Divide(rs, rt, g)
    else if op == Op.MTHI || op == Op.MTLO then
      if low % 0x8000 != 0 then Outcome(INVALID, g)
      else if op == Op.MTHI then Outcome(OK, g.(hi := rs))
      else Outcome(OK, g.(lo := rs))
    else if op == Op.MFHI || op == Op.MFLO then
      if Op.FieldRs(insn) != 0 || Op.FieldRt(insn) != 0 || low % 32 != 0 then Outcome(INVALID, g)
      else PutRd(insn, g, if op == Op.MFHI then g.hi else g.lo)
    else Outcome(ABORT, g)
  }

  // ----- Control transfer -----

  function RegionTarget(nds: Word, insn: Word): Word {
    Or(And(nds, 0xF800_0000), 4 * (insn % 0x400_0000))
  }

  function BranchTarget(nds: Word, insn: Word): Word {
    ToWord(nds + 4 * SImm(insn))
  }

  /** Arms the delay slot behind `core.pc` and redirects to `target`. */
  function Transfer(core: Core, r: RegFile, target: Word): Outcome<Core> {
    Outcome(OK, Core(core.g.(r := r), target, ToWord(core.pc + 4)))
  }

  function DoJump(insn: Word, op: int, core: Core): Outcome<Core> {
    var r := core.g.r;
    var nds, link := ToWord(core.pc + 4), ToWord(core.pc + 8);
    if core.ds != 0 then Outcome(INVALID, core)
    else if op == Op.JAL then Transfer(core, Put(r, 31, link), RegionTarget(nds, insn))
    else if op == Op.J then Transfer(core, r, RegionTarget(nds, insn))
    else if op == Op.JALR then
      if Op.FieldRt(insn) != 0 then Outcome(INVALID, core)
      else
        var r' := Put(r, Op.FieldRd(insn), link);
        Transfer(core, r', Rs(insn, r'))
    else if op == Op.JR then
      if insn / 0x40 % 0x8000 != 0 then Outcome(INVALID, core)
      else Transfer(core, r, Rs(insn, r))
    else Outcome(ABORT, core)
  }

  function BranchIf(core: Core, r: RegFile, insn: Word, taken: bool): Outcome<Core> {
    if taken then Transfer(core, r, BranchTarget(ToWord(core.pc + 4), insn))
    else Outcome(OK, core.(g := core.g.(r := r)))
  }

  function DoBranch(insn: Word, op: int, core: Core): Outcome<Core> {
    var r := core.g.r;
    var rs, rt := Rs(insn, r), Rt(insn, r);
    if core.ds != 0 then Outcome(INVALID, core)
    else if op == Op.BEQ then BranchIf(core, r, insn, rs == rt)
    else if op == Op.BNE then BranchIf(core, r, insn, rs != rt)
    else if op == Op.BLEZ || op == Op.BGTZ then
      if Op.FieldRt(insn) != 0 then Outcome(INVALID, core)
      else BranchIf(core, r, insn, if op == Op.BLEZ then Signed(rs) <= 0 else Signed(rs) > 0)
    else if op == Op.BLTZ then BranchIf(core, r, insn, Signed(rs) < 0)
    else if op == Op.BGEZ then BranchIf(core, r, insn, Signed(rs) >= 0)
    else if op == Op.BLTZAL || op == Op.BGEZAL then
      var r' := Put(r, 31, ToWord(core.pc + 8));
      var s := Signed(Rs(insn, r'));
      BranchIf(core, r', insn, if op == Op.BLTZAL then s < 0 else s >= 0)
    else Outcome(ABORT, core)
  }

  // ----- Loads and stores -----

  function EffectiveAddress(insn: Word, r: RegFile): Word {
    ToWord(Rs(insn, r) + UImm(insn))
  }

  function LoadRt(insn: Word, m: State, v: Res<Word>): Outcome<State> {
    var o := PutRes(m.core.g, Op.FieldRt(insn), v);
    Outcome(o.exn, m.(core := m.core.(g := o.st)))
  }

  /** As LoadRt, but the operand is evaluated, and can fault, even for register 0. */
  function EagerLoadRt(insn: Word, m: State, v: Res<Word>): Outcome<State> {
    match v
    case Value(_) => LoadRt(insn, m, v)
    case Throw(e) => Outcome(e, m)
  }

  function StoreTo(m: State, mem': Res<Ram>): Outcome<State> {
    match mem'
    case Value(mem) => Outcome(OK, m.(mem := mem))
    case Throw(e) => Outcome(e, m)
  }

  /** The word LWL leaves in a register holding `rt` when it reads `w` at byte offset `s`. */
  function MergeLeft(w: Word, rt: Word, s: nat): Word
    requires s < 4
  {
    Or(Shl(w, 8 * (3 - s)), if s != 3 then And(rt, Shr(ALL_ONES, 8 * (s + 1))) else 0)
  }

  function MergeRight(w: Word, rt: Word, s: nat): Word
    requires s < 4
  {
    Or(Shr(w, 8 * s), if s != 0 then And(rt, Shl(ALL_ONES, 8 * (4 - s))) else 0)
  }

  /** The word SWL stores over `w` for a register holding `rt` at byte offset `s`. */
  function SpillLeft(w: Word, rt: Word, s: nat): Word
    requires s < 4
  {
    Or(if s != 3 then And(w, Shl(ALL_ONES, 8 * (s + 1))) else 0, Shr(rt, 8 * (3 - s)))
  }

  function SpillRight(w: Word, rt: Word, s: nat): Word
    requires s < 4
  {
    Or(if s != 0 then And(w, Shr(ALL_ONES, 8 * (4 - s))) else 0, Shl(rt, 8 * s))
  }

  function LoadLeft(c: Codec, mem: Ram, ea: Word, rt: Word): Res<Word> {
    var w :- PeekUw(c, mem, ea - ea % 4);
    Value(MergeLeft(w, rt, ea % 4))
  }

  function LoadRight(c: Codec, mem: Ram, ea: Word, rt: Word): Res<Word> {
    var w :- PeekUw(c, mem, ea - ea % 4);
    Value(MergeRight(w, rt, ea % 4))
  }

  /** The old word is read only when some of it is kept. */
  function StoreLeft(c: Codec, mem: Ram, ea: Word, rt: Word): Res<Ram> {
    var s := ea % 4;
    if s == 3 then PokeUw(c, mem, ea - s, SpillLeft(0, rt, s))
    else
      var w :- PeekUw(c, mem, ea - s);
      PokeUw(c, mem, ea - s, SpillLeft(w, rt, s))
  }

  function StoreRight(c: Codec, mem: Ram, ea: Word, rt: Word): Res<Ram> {
    var s := ea % 4;
    if s == 0 then PokeUw(c, mem, ea, SpillRight(0, rt, s))
    else
      var w :- PeekUw(c, mem, ea - s);
      PokeUw(c, mem, ea - s, SpillRight(w, rt, s))
  }

  function DoLoadStore(c: Codec, insn: Word, op: int, m: State): Outcome<State> {
    var ea, rt := EffectiveAddress(insn, m.core.g.r), Rt(insn, m.core.g.r);
    if op == Op.LB then LoadRt(insn, m, PeekSb(c, m.mem, ea))
    else if op == Op.LBU then LoadRt(insn, m, PeekUb(c, m.mem, ea))
    else if op == Op.LH then LoadRt(insn, m, PeekSh(c, m.mem, ea))
    else if op == Op.LHU then LoadRt(insn, m, PeekUh(c, m.mem, ea))
    else if op == Op.LW then LoadRt(insn, m, PeekUw(c, m.mem, ea))
    else if op == Op.SB then StoreTo(m, PokeUb(c, m.mem, ea, rt % 0x100))
    else if op == Op.SH then StoreTo(m, PokeUh(c, m.mem, ea, rt % 0x1_0000))
    else if op == Op.SW then StoreTo(m, PokeUw(c, m.mem, ea, rt))
    else if op == Op.LUI then
      if Op.FieldRs(insn) != 0 then Outcome(INVALID, m)
      else LoadRt(insn, m, Value(Shl(ZImm(insn), 16)))
    else if op == Op.LWL then EagerLoadRt(insn, m, LoadLeft(c, m.mem, ea, rt))
    else if op == Op.LWR then EagerLoadRt(insn, m, LoadRight(c, m.mem, ea, rt))
    else if op == Op.SWL then StoreTo(m, StoreLeft(c, m.mem, ea, rt))
    else if op == Op.SWR then StoreTo(m, StoreRight(c, m.mem, ea, rt))
    else Outcome(ABORT, m)
  }

  // ----- Dispatch and step -----

  predicate IsJump(op: int) { op == Op.J || op == Op.JAL || op == Op.JR || op == Op.JALR }

  predicate IsBranch(op: int) {
    Op.BEQ <= op <= Op.BGTZ || op == Op.BLTZ || op == Op.BGEZ || op == Op.BLTZAL || op == Op.BGEZAL
  }

  predicate IsTransfer(op: int) { IsJump(op) || IsBranch(op) }

  predicate IsAlui(op: int) { Op.ADDI <= op <= Op.XORI }

  predicate IsAlu3(op: int) {
    || IsConstantShift(op) || op == Op.SLLV || op == Op.SRLV || op == Op.SRAV
    || Op.ADD <= op <= Op.NOR || op == Op.SLT || op == Op.SLTU
  }

  predicate IsLoadStore(op: int) {
    op == Op.LUI || Op.LB <= op <= Op.LWR || Op.SB <= op <= Op.SW || op == Op.SWR
  }

  predicate IsStore(op: int) {
    op == Op.SB || op == Op.SH || op == Op.SW || op == Op.SWL || op == Op.SWR
  }

  predicate IsDivMult(op: int) { Op.MFHI <= op <= Op.MTLO || Op.MULT <= op <= Op.DIVU }

  function WithGprs(m: State, o: Outcome<Gprs>): Outcome<State> {
    Outcome(o.exn, m.(core := m.core.(g := o.st)))
  }

  function WithCore(m: State, o: Outcome<Core>): Outcome<State> {
    Outcome(o.exn, m.(core := o.st))
  }

  function Dispatch(c: Codec, insn: Word, op: int, m: State): Outcome<State> {
    if IsJump(op) then WithCore(m, DoJump(insn, op, m.core))
    else if IsBranch(op) then WithCore(m, DoBranch(insn, op, m.core))
    else if IsAlui(op) then WithGprs(m, DoAlui(insn, op, m.core.g))
    else if IsAlu3(op) then WithGprs(m, DoAlu3(insn, op, m.core.g))
    else if IsLoadStore(op) then DoLoadStore(c, insn, op, m)
    else if IsDivMult(op) then WithGprs(m, DoDivMult(insn, op, m.core.g))
    else if op == Op.SYSCALL then Outcome(Exn.SYSCALL, m)
    else if op == Op.BREAK then Outcome(Exn.BREAK, m)
    else Outcome(ABORT, m)
  }

  function FetchAddress(core: Core): Word {
    if core.ds != 0 then core.ds else core.pc
  }

  function Fetch(c: Codec, m: State): Res<Word> {
    PeekUw(c, m.mem, FetchAddress(m.core))
  }

  /** The PC and delay-slot update after a successful instruction. */
  function Advance(core: Core, inSlot: bool): Core {
    if inSlot then core.(ds := 0)
    else if core.ds == 0 then core.(pc := ToWord(core.pc + 4))
    else core
  }

  function Execute(c: Codec, insn: Word, m: State): Outcome<State> {
    var op := Op.Decode(insn);
    if op == Op.SPECIAL || op == Op.REGIMM then Outcome(ABORT, m)
    else if op < 0 then Outcome(INVALID, m)
    else if m.core.g.r[0] != 0 then Outcome(ABORT, m)
    else
      var o := Dispatch(c, insn, op, m);
      if o.exn != OK then o
      else if o.st.core.g.r[0] != 0 then Outcome(ABORT, o.st)
      else Outcome(OK, o.st.(core := Advance(o.st.core, m.core.ds != 0)))
  }

  function Step(c: Codec, m: State): Outcome<State> {
    match Fetch(c, m)
    case Throw(e) => Outcome(e, m)
    case Value(insn) => Execute(c, insn, m)
  }

  /** At most `n` steps, stopping at the first one that does not end in OK. */
  function Run(c: Codec, m: State, n: nat): Outcome<State>
    decreases n
  {
    if n == 0 then Outcome(OK, m)
    else
      var o := Step(c, m);
      if o.exn != OK then o else Run(c, o.st, n - 1)
  }

  // ----- Traps -----

  datatype Trap = NoTrap | SyscallTrap(code: nat) | BreakTrap(code: nat)

  /** The trap an instruction word stands for, with its code field. */
  function TrapIn(insn: Word): Trap {
    if Op.Decode(insn) == Op.BREAK then BreakTrap(insn / 0x1_0000 % 0x400)
    else if Op.Decode(insn) == Op.SYSCALL then SyscallTrap(insn / 0x40 % 0x10_0000)
    else NoTrap
  }

  /** The trap in the word at `a`, if it can be read. */
  function TrapAt(c: Codec, mem: Ram, a: Word): Trap {
    match PeekUw(c, mem, a)
    case Throw(_) => NoTrap
    case Value(insn) => TrapIn(insn)
  }

  /** What mips_break_code hands back: the opcode, left unset when the word cannot be read, and a code. */
  datatype Report = Report(opcode: Option<int>, code: int)

  function BreakCode(c: Codec, m: State): Report {
    match PeekUw(c, m.mem, m.core.pc)
    case Throw(_) => Report(None, -1)
    case Value(insn) =>
      Report(Some(Op.Decode(insn)),
             match TrapIn(insn)
             case BreakTrap(code) => code
             case SyscallTrap(code) => code
             case NoTrap => -1)
  }

  /** mips_resume: the new state and whether it succeeded. */
  function Resume(c: Codec, m: State): (State, bool) {
    match PeekUw(c, m.mem, m.core.pc)
    case Throw(_) => (m, false)
    case Value(insn) =>
      var op := Op.Decode(insn);
      if op == Op.BREAK || op == Op.SYSCALL then (m.(core := m.core.(pc := ToWord(m.core.pc + 4))), true)
      else (m, false)
  }
}
