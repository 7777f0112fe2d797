/** The interpreter's CPU object: registers and memory updated in place by the handlers. Each method
    is proved to do what the corresponding function on values does. */
module Cpu {
  import opened Bits
  import opened Memory
  import opened Machine
  import opened BulkCopy
  import Op = Opcodes

  class Cpu {
    const r: array<Word>
    var hi: Word
    var lo: Word
    var pc: Word
    var delaySlot: Word
    var brk: Word
    const stksz: nat

    /** The guest's memory; the block below LOWBASE is where this object itself is kept. */
    const mem: array<Word>
    /** The word hooks. */
    var codec: Codec
    const decoder: Op.Decoder

    ghost predicate Valid()
      reads this, r, mem, decoder, decoder.valid
    {
      && r.Length == 32
      && LOWBASE_INDEX < mem.Length < 0x4000_0000
      && stksz <= 4 * mem.Length
      && r != mem && decoder.valid != r && decoder.valid != mem
      && decoder.Ready()
    }

    function Regs(): Gprs
      requires r.Length == 32
      reads this, r
    {
      Gprs(r[..], hi, lo)
    }

    function CoreState(): Core
      requires r.Length == 32
      reads this, r
    {
      Core(Regs(), pc, delaySlot)
    }

    function Snapshot(): State
      requires r.Length == 32 && LOWBASE_INDEX < mem.Length < 0x4000_0000
      reads this, r, mem
    {
      State(CoreState(), mem[..])
    }

    /** A reset CPU in preallocated memory, with the identity hooks. The words the CPU structure takes up
        at the start of memory are zeroed. */
    constructor (base: array<Word>, stksz: nat, decoder: Op.Decoder, structWords: nat)
      requires LOWBASE_INDEX < base.Length < 0x4000_0000 && stksz <= 4 * base.Length
      requires decoder.Ready() && decoder.valid != base && structWords <= LOWBASE_INDEX
      modifies base
      ensures Valid() && fresh(r) && mem == base && this.decoder == decoder && this.stksz == stksz
      ensures CoreState() == RESET_CORE && brk == 0 && codec == IDENTITY
      ensures pc == 0 && delaySlot == 0 && hi == 0 && lo == 0 && forall i :: 0 <= i < 32 ==> r[i] == 0
      ensures mem[..] == seq(structWords, _ => 0) + old(base[structWords..])
    {
      r := new Word[32];
      hi, lo, pc, delaySlot, brk := 0, 0, 0, 0, 0;
      mem := base;
      this.stksz := stksz;
      this.decoder := decoder;
      codec := IDENTITY;
      new;
      for i := 0 to 32
        invariant forall k :: 0 <= k < i ==> r[k] == 0
        modifies r
      {
        r[i] := 0;
      }
      for i := 0 to structWords
        invariant forall k :: 0 <= k < 32 ==> r[k] == 0
        invariant forall k :: 0 <= k < i ==> base[k] == 0
        invariant base[structWords..] == old(base[structWords..])
        modifies base
      {
        base[i] := 0;
      }
      assert r[..] == RESET_CORE.g.r;
      assert base[..] == base[..structWords] + base[structWords..];
    }

    // ----- Word hooks and checked accesses -----

    method HookPeek(a: nat) returns (w: Word)
      requires Valid() && HookAddress(mem[..], a)
      ensures w == Memory.HookPeek(codec, mem[..], a)
    {
      w := codec.dec(a, mem[a / 4]);
    }

    method HookPoke(a: nat, v: Word)
      requires Valid() && HookAddress(mem[..], a)
      modifies mem
      ensures Valid()
      ensures mem[..] == Memory.HookPoke(codec, old(mem[..]), a, v)
    {
      mem[a / 4] := codec.enc(a, v);
    }

    predicate Accepts(a: Word, align: nat)
      requires Valid()
      reads this, r, mem, decoder, decoder.valid
    {
      ValidAddress(mem[..], a, align)
    }

    method PeekUb(a: Word) returns (v: Res<Byte>)
      requires Valid()
      ensures v == Memory.PeekUb(codec, mem[..], a)
    {
      var s := a % 4;
      if !Accepts(a, 0) {
        return Throw(ADDRESS);
      }
      var w := HookPeek(a - s);
      v := Value(Shr(w, 8 * s) % 0x100);
    }

    method PeekUh(a: Word) returns (v: Res<Half>)
      requires Valid()
      ensures v == Memory.PeekUh(codec, mem[..], a)
    {
      var s := a % 4;
      if !Accepts(a, 1) {
        return Throw(ADDRESS);
      }
      var w := HookPeek(a - s);
      v := Value(Shr(w, 8 * s) % 0x1_0000);
    }

    method PeekSb(a: Word) returns (v: Res<Word>)
      requires Valid()
      ensures v == Memory.PeekSb(codec, mem[..], a)
    {
      var s := a % 4;
      if !Accepts(a, 0) {
        return Throw(ADDRESS);
      }
      var w := HookPeek(a - s);
      v := Value(ToWord(SignedByte(Shr(w, 8 * s) % 0x100)));
    }

    method PeekSh(a: Word) returns (v: Res<Word>)
      requires Valid()
      ensures v == Memory.PeekSh(codec, mem[..], a)
    {
      var s := a % 4;
      if !Accepts(a, 1) {
        return Throw(ADDRESS);
      }
      var w := HookPeek(a - s);
      v := Value(ToWord(SignedHalf(Shr(w, 8 * s) % 0x1_0000)));
    }

    method PeekUw(a: Word) returns (v: Res<Word>)
      requires Valid()
      ensures v == Memory.PeekUw(codec, mem[..], a)
      ensures v.Throw? ==> v.exn == ADDRESS
    {
      if !Accepts(a, 3) {
        return Throw(ADDRESS);
      }
      var w := HookPeek(a);
      v := Value(w);
    }

    /** The memory after an access that may throw; a throw leaves it alone. */
    ghost predicate Poked(exn: Exn, before: Ram, result: Res<Ram>)
      requires Valid()
      reads this, r, mem, decoder, decoder.valid
    {
      match result
      case Value(after) => exn == OK && mem[..] == after
      case Throw(e) => exn == e && exn != OK && mem[..] == before
    }

    method PokeUb(a: Word, v: Byte) returns (exn: Exn)
      requires Valid()
      modifies mem
      ensures Valid() && Poked(exn, old(mem[..]), Memory.PokeUb(codec, old(mem[..]), a, v))
    {
      var s := a % 4;
      if !Accepts(a, 0) {
        return ADDRESS;
      }
      var w := HookPeek(a - s);
      var m := Not(Shl(0xFF, 8 * s));
      HookPoke(a - s, Or(And(w, m), Shl(v, 8 * s)));
      exn := OK;
    }

    method PokeUh(a: Word, v: Half) returns (exn: Exn)
      requires Valid()
      modifies mem
      ensures Valid() && Poked(exn, old(mem[..]), Memory.PokeUh(codec, old(mem[..]), a, v))
    {
      var s := a % 4;
      if !Accepts(a, 1) {
        return ADDRESS;
      }
      var w := HookPeek(a - s);
      var m := Not(Shl(0xFFFF, 8 * s));
      HookPoke(a - s, Or(And(w, m), Shl(v, 8 * s)));
      exn := OK;
    }

    method PokeUw(a: Word, v: Word) returns (exn: Exn)
      requires Valid()
      modifies mem
      ensures Valid() && Poked(exn, old(mem[..]), Memory.PokeUw(codec, old(mem[..]), a, v))
    {
      if !Accepts(a, 3) {
        return ADDRESS;
      }
      HookPoke(a, v);
      exn := OK;
    }

    // ----- Handlers -----

    /** Register write; register 0 is never written. */
    method WriteReg(i: nat, v: Word)
      requires Valid() && i < 32
      modifies r
      ensures Valid() && r[..] == Put(old(r[..]), i, v)
    {
      if i != 0 {
        r[i] := v;
      }
    }

    method DoAlui(insn: Word, op: int) returns (exn: Exn)
      requires Valid()
      modifies r
      ensures Valid() && Outcome(exn, Regs()) == Machine.DoAlui(insn, op, old(Regs()))
    {
      hide And, Or, Xor, ToWord, Signed, Flag, CheckedSum, SImm, UImm, ZImm, Op.FieldRs, Op.FieldRt;
      var rs, t := r[Op.FieldRs(insn)], Op.FieldRt(insn);
      if op == Op.ADDI {
        if t != 0 {
          var sum := CheckedSum(Signed(rs) + SImm(insn));
          if sum.Throw? {
            return sum.exn;
          }
          WriteReg(t, sum.value);
        }
      } else if op == Op.ADDIU {
        WriteReg(t, ToWord(rs + UImm(insn)));
      } else if op == Op.SLTI {
        WriteReg(t, Flag(Signed(rs) < SImm(insn)));
      } else if op == Op.SLTIU {
        WriteReg(t, Flag(rs < UImm(insn)));
      } else if op == Op.ANDI {
        WriteReg(t, And(rs, ZImm(insn)));
      } else if op == Op.ORI {
        WriteReg(t, Or(rs, ZImm(insn)));
      } else if op == Op.XORI {
        WriteReg(t, Xor(rs, ZImm(insn)));
      } else {
        return ABORT;
      }
      exn := OK;
    }

    method DoAlu3(insn: Word, op: int) returns (exn: Exn)
      requires Valid()
      modifies r
      ensures Valid() && Outcome(exn, Regs()) == Machine.DoAlu3(insn, op, old(Regs()))
    {
      hide Shl, Shr, Sra, And, Or, Xor, Not, ToWord, Signed, Flag, CheckedSum,
           Op.FieldRs, Op.FieldRt, Op.FieldRd, Op.FieldSa;
      var rs: int, rt: int, d := r[Op.FieldRs(insn)], r[Op.FieldRt(insn)], Op.FieldRd(insn);
      var sa := Op.FieldSa(insn);
      if !IsAlu3(op) {
        return ABORT;
      }
      if (if IsConstantShift(op) then Op.FieldRs(insn) else sa) != 0 {
        return INVALID;
      }
      if op == Op.SLL {
        WriteReg(d, Shl(rt, sa));
      } else if op == Op.SRL {
        WriteReg(d, Shr(rt, sa));
      } else if op == Op.SRA {
        WriteReg(d, Sra(rt, sa));
      } else if op == Op.SLLV {
        WriteReg(d, Shl(rt, rs % 32));
      } else if op == Op.SRLV {
        WriteReg(d, Shr(rt, rs % 32));
      } else if op == Op.SRAV {
        WriteReg(d, Sra(rt, rs % 32));
      } else if op == Op.ADD || op == Op.SUB {
        if d != 0 {
          var sum := CheckedSum(if op == Op.ADD then Signed(rs) + Signed(rt) else Signed(rs) - Signed(rt));
          if sum.Throw? {
            return sum.exn;
          }
          WriteReg(d, sum.value);
        }
      } else if op == Op.ADDU {
        WriteReg(d, ToWord(rs + rt));
      } else if op == Op.SUBU {
        WriteReg(d, ToWord(rs - rt));
      } else if op == Op.AND {
        WriteReg(d, And(rs, rt));
      } else if op == Op.OR {
        WriteReg(d, Or(rs, rt));
      } else if op == Op.XOR {
        WriteReg(d, Xor(rs, rt));
      } else if op == Op.NOR {
        WriteReg(d, Not(Or(rs, rt)));
      } else if op == Op.SLT {
        WriteReg(d, Flag(Signed(rs) < Signed(rt)));
      } else {
        WriteReg(d, Flag(rs < rt));
      }
      exn := OK;
    }

    method Multiply(p: int)
      requires Valid()
      modifies `hi, `lo
      ensures Valid() && Outcome(OK, Regs()) == Product(p, old(Regs()))
    {
      hi, lo := HighWord(p), LowWord(p);
    }

    method Divide(a: int, b: int) returns (exn: Exn)
      requires Valid()
      modifies `hi, `lo
      ensures Valid() && Outcome(exn, Regs()) == Machine.Divide(a, b, old(Regs()))
    {
      lo, hi := ALL_ONES, ALL_ONES;
      if b != 0 {
        if a == -0x8000_0000 && b == -1 {
          return UNDEFINED;
        }
        lo, hi := ToWord(TruncDiv(a, b)), ToWord(TruncRem(a, b));
      }
      exn := OK;
    }

    method DoDivMult(insn: Word, op: int) returns (exn: Exn)
      requires Valid()
      modifies r, `hi, `lo
      ensures Valid() && Outcome(exn, Regs()) == Machine.DoDivMult(insn, op, old(Regs()))
    {
      hide Machine.Divide, Product, Signed, Op.FieldRs, Op.FieldRt, Op.FieldRd;
      var rs: int, rt: int := r[Op.FieldRs(insn)], r[Op.FieldRt(insn)];
      var low := insn / 0x40;
      exn := OK;
      if op == Op.MULT || op == Op.MULTU || op == Op.DIV || op == Op.DIVU {
        if low % 0x400 != 0 {
          return INVALID;
        }
        if op == Op.MULT {
          Multiply(Signed(rs) * Signed(rt));
        } else if op == Op.MULTU {
          Multiply(rs * rt);
        } else if op == Op.DIV {
          exn := Divide(Signed(rs), Signed(rt));
        } else {
          exn := Divide(rs, rt);
        }
      } else if op == Op.MTHI || op == Op.MTLO {
        if low % 0x8000 != 0 {
          return INVALID;
        }
        if op == Op.MTHI {
          hi := rs;
        } else {
          lo := rs;
        }
      } else if op == Op.MFHI || op == Op.MFLO {
        if Op.FieldRs(insn) != 0 || Op.FieldRt(insn) != 0 || low % 32 != 0 {
          return INVALID;
        }
        WriteReg(Op.FieldRd(insn), if op == Op.MFHI then hi else lo);
      } else {
        return ABORT;
      }
    }

    method DoJump(insn: Word, op: int) returns (exn: Exn)
      requires Valid()
      modifies r, `pc, `delaySlot
      ensures Valid() && Outcome(exn, CoreState()) == Machine.DoJump(insn, op, old(CoreState()))
    {
      var nds := ToWord(pc + 4);
      var npc: Word;
      if delaySlot != 0 {
        return INVALID;
      }
      if op == Op.JAL || op == Op.J {
        if op == Op.JAL {
          WriteReg(31, ToWord(pc + 8));
        }
        npc := RegionTarget(nds, insn);
      } else if op == Op.JALR {
        if Op.FieldRt(insn) != 0 {
          return INVALID;
        }
        WriteReg(Op.FieldRd(insn), ToWord(pc + 8));
        npc := r[Op.FieldRs(insn)];
      } else if op == Op.JR {
        if insn / 0x40 % 0x8000 != 0 {
          return INVALID;
        }
        npc := r[Op.FieldRs(insn)];
      } else {
        return ABORT;
      }
      delaySlot := nds;
      pc := npc;
      exn := OK;
    }

    method DoBranch(insn: Word, op: int) returns (exn: Exn)
      requires Valid()
      modifies r, `pc, `delaySlot
      ensures Valid() && Outcome(exn, CoreState()) == Machine.DoBranch(insn, op, old(CoreState()))
    {
      if delaySlot != 0 {
        return INVALID;
      }
      var s: bool;
      if op == Op.BEQ {
        s := r[Op.FieldRs(insn)] == r[Op.FieldRt(insn)];
      } else if op == Op.BNE {
        s := r[Op.FieldRs(insn)] != r[Op.FieldRt(insn)];
      } else if op == Op.BLEZ || op == Op.BGTZ {
        if Op.FieldRt(insn) != 0 {
          return INVALID;
        }
        s := (op == Op.BLEZ) == (Signed(r[Op.FieldRs(insn)]) <= 0);
      } else if op == Op.BLTZAL || op == Op.BLTZ {
        if op == Op.BLTZAL {
          WriteReg(31, ToWord(pc + 8));
        }
        s := Signed(r[Op.FieldRs(insn)]) < 0;
      } else if op == Op.BGEZAL || op == Op.BGEZ {
        if op == Op.BGEZAL {
          WriteReg(31, ToWord(pc + 8));
        }
        s := Signed(r[Op.FieldRs(insn)]) >= 0;
      } else {
        return ABORT;
      }
      if s {
        var nds := ToWord(pc + 4);
        delaySlot := nds;
        pc := BranchTarget(nds, insn);
      }
      exn := OK;
    }

    predicate IsPlainLoad(op: int) {
      op == Op.LB || op == Op.LBU || op == Op.LH || op == Op.LHU || op == Op.LW
    }

    method Load(op: int, ea: Word) returns (v: Res<Word>)
      requires Valid() && IsPlainLoad(op)
      ensures v == if op == Op.LB then Memory.PeekSb(codec, mem[..], ea)
                   else if op == Op.LBU then Memory.PeekUb(codec, mem[..], ea)
                   else if op == Op.LH then Memory.PeekSh(codec, mem[..], ea)
                   else if op == Op.LHU then Memory.PeekUh(codec, mem[..], ea)
                   else Memory.PeekUw(codec, mem[..], ea)
    {
      hide Memory.PeekSb, Memory.PeekUb, Memory.PeekSh, Memory.PeekUh, Memory.PeekUw;
      if op == Op.LB {
        v := PeekSb(ea);
      } else if op == Op.LBU {
        v := PeekUb(ea);
      } else if op == Op.LH {
        v := PeekSh(ea);
      } else if op == Op.LHU {
        v := PeekUh(ea);
      } else {
        v := PeekUw(ea);
      }
    }

    method StoreLeft(ea: Word, rt: Word) returns (exn: Exn)
      requires Valid()
      modifies mem
      ensures Valid() && Poked(exn, old(mem[..]), Machine.StoreLeft(codec, old(mem[..]), ea, rt))
    {
      hide Memory.PeekUw, Memory.PokeUw, SpillLeft;
      var s := ea % 4;
      var w: Word := 0;
      if s != 3 {
        var v := PeekUw(ea - s);
        if v.Throw? {
          return v.exn;
        }
        w := v.value;
      }
      exn := PokeUw(ea - s, SpillLeft(w, rt, s));
    }

    method StoreRight(ea: Word, rt: Word) returns (exn: Exn)
      requires Valid()
      modifies mem
      ensures Valid() && Poked(exn, old(mem[..]), Machine.StoreRight(codec, old(mem[..]), ea, rt))
    {
      hide Memory.PeekUw, Memory.PokeUw, SpillRight;
      var s := ea % 4;
      var w: Word := 0;
      if s != 0 {
        var v := PeekUw(ea - s);
        if v.Throw? {
          return v.exn;
        }
        w := v.value;
      }
      exn := PokeUw(ea - s, SpillRight(w, rt, s));
    }

    method DoLoadStore(insn: Word, op: int) returns (exn: Exn)
      requires Valid()
      modifies r, mem
      ensures Valid() && Outcome(exn, Snapshot()) == Machine.DoLoadStore(codec, insn, op, old(Snapshot()))
    {
      hide Memory.PeekUb, Memory.PeekUh, Memory.PeekUw, Memory.PeekSb, Memory.PeekSh, Memory.PokeUb, Memory.PokeUh,
           Memory.PokeUw, Machine.StoreLeft, Machine.StoreRight, MergeLeft, MergeRight, ToWord, Shl, UImm, ZImm,
           Op.FieldRs, Op.FieldRt;
      var ea, rt, t := EffectiveAddress(insn, r[..]), r[Op.FieldRt(insn)], Op.FieldRt(insn);
      exn := OK;
      if IsPlainLoad(op) {
        if t != 0 {
          var v := Load(op, ea);
          if v.Throw? {
            return v.exn;
          }
          WriteReg(t, v.value);
        }
      } else if op == Op.LUI {
        if Op.FieldRs(insn) != 0 {
          return INVALID;
        }
        WriteReg(t, Shl(ZImm(insn), 16));
      } else if op == Op.LWL || op == Op.LWR {
        var s := ea % 4;
        var w := PeekUw(ea - s);
        if w.Throw? {
          return w.exn;
        }
        WriteReg(t, if op == Op.LWL then MergeLeft(w.value, rt, s) else MergeRight(w.value, rt, s));
      } else if op == Op.SB {
        exn := PokeUb(ea, rt % 0x100);
      } else if op == Op.SH {
        exn := PokeUh(ea, rt % 0x1_0000);
      } else if op == Op.SW {
        exn := PokeUw(ea, rt);
      } else if op == Op.SWL {
        exn := StoreLeft(ea, rt);
      } else if op == Op.SWR {
        exn := StoreRight(ea, rt);
      } else {
        exn := ABORT;
      }
    }

    // ----- Dispatch and execution -----

    method DoDispatch(insn: Word, op: int) returns (exn: Exn)
      requires Valid()
      modifies r, mem, `hi, `lo, `pc, `delaySlot
      ensures Valid() && Outcome(exn, Snapshot()) == Dispatch(codec, insn, op, old(Snapshot()))
    {
      hide Machine.DoJump, Machine.DoBranch, Machine.DoAlui, Machine.DoAlu3, Machine.DoLoadStore, Machine.DoDivMult;
      if IsJump(op) {
        exn := DoJump(insn, op);
      } else if IsBranch(op) {
        exn := DoBranch(insn, op);
      } else if IsAlui(op) {
        exn := DoAlui(insn, op);
      } else if IsAlu3(op) {
        exn := DoAlu3(insn, op);
      } else if IsLoadStore(op) {
        exn := DoLoadStore(insn, op);
      } else if IsDivMult(op) {
        exn := DoDivMult(insn, op);
      } else if op == Op.SYSCALL {
        exn := SYSCALL;
      } else if op == Op.BREAK {
        exn := BREAK;
      } else {
        exn := ABORT;
      }
    }

    /** Executes one instruction. */
    method Execute() returns (exn: Exn)
      requires Valid()
      modifies r, mem, `hi, `lo, `pc, `delaySlot
      ensures Valid() && Outcome(exn, Snapshot()) == Step(codec, old(Snapshot()))
    {
      hide Memory.PeekUw, Dispatch, Op.Decode;
      var inSlot := delaySlot != 0;
      var insn := PeekUw(if inSlot then delaySlot else pc);
      if insn.Throw? {
        return insn.exn;
      }
      var op := decoder.MipsDecode(insn.value);
      if op == Op.SPECIAL || op == Op.REGIMM {
        return ABORT;
      }
      if op < 0 {
        return INVALID;
      }
      if r[0] != 0 {
        return ABORT;
      }
      exn := DoDispatch(insn.value, op);
      if exn != OK {
        return;
      }
      if r[0] != 0 {
        return ABORT;
      }
      if inSlot {
        delaySlot := 0;
      } else if delaySlot == 0 {
        pc := ToWord(pc + 4);
      }
    }

    /** Executes until an exception, for at most `n` instructions. */
    method ExecuteFor(n: nat) returns (exn: Exn)
      requires Valid()
      modifies r, mem, `hi, `lo, `pc, `delaySlot
      ensures Valid() && Outcome(exn, Snapshot()) == Run(codec, old(Snapshot()), n)
    {
      hide Step;
      exn := OK;
      for i := 0 to n
        invariant Valid() && exn == OK
        invariant Run(codec, old(Snapshot()), n) == Run(codec, Snapshot(), n - i)
      {
        exn := Execute();
        if exn != OK {
          return;
        }
      }
    }

    /** Reports the opcode of the word at PC and, for SYSCALL and BREAK, its code field. */
    method BreakCode() returns (report: Report)
      requires Valid()
      ensures report == Machine.BreakCode(codec, Snapshot())
    {
      hide Memory.PeekUw, Op.Decode;
      var insn := PeekUw(pc);
      if insn.Throw? {
        return Report(None, -1);
      }
      var op := decoder.MipsDecode(insn.value);
      if op == Op.BREAK {
        report := Report(Some(op), insn.value / 0x1_0000 % 0x400);
      } else if op == Op.SYSCALL {
        report := Report(Some(op), insn.value / 0x40 % 0x10_0000);
      } else {
        report := Report(Some(op), -1);
      }
    }

    method Resume() returns (ok: bool)
      requires Valid()
      modifies `pc
      ensures Valid() && (Snapshot(), ok) == Machine.Resume(codec, old(Snapshot()))
    {
      hide Memory.PeekUw, Op.Decode;
      var insn := PeekUw(pc);
      ok := false;
      if insn.Value? {
        var op := decoder.MipsDecode(insn.value);
        if op == Op.BREAK || op == Op.SYSCALL {
          pc := ToWord(pc + 4);
          ok := true;
        }
      }
    }

    /** Register values delivered by a host service. */
    method SetRegs(g: Gprs)
      requires Valid()
      modifies r, `hi, `lo
      ensures Valid() && Snapshot() == old(Snapshot()).(core := old(CoreState()).(g := g))
    {
      for i := 0 to 32
        invariant Valid() && mem[..] == old(mem[..])
        invariant forall k :: 0 <= k < i ==> r[k] == g.r[k]
      {
        r[i] := g.r[i];
      }
      hi, lo := g.hi, g.lo;
      assert r[..] == g.r;
    }

    // ----- Bulk copy -----

    method CopyOut(dst: Word, src: Buffer) returns (status: Transfer)
      requires Valid()
      modifies mem
      ensures Valid()
      ensures match BulkCopy.CopyOut(codec, old(mem[..]), dst, src)
              case Written(after) => status == DONE && mem[..] == after
              case WriteRefused => status == REFUSED && mem[..] == old(mem[..])
              case WriteEscaped(after) => status == ESCAPED && mem[..] == after
    {
      hide Memory.PokeUb;
      if ToWord(dst + |src|) >= 4 * mem.Length {
        return REFUSED;
      }
      var at: Word := dst;
      for i := 0 to |src|
        invariant Valid()
        invariant PokeAll(codec, old(mem[..]), dst, src) == PokeAll(codec, mem[..], at, src[i..])
      {
        ghost var before := mem[..];
        assert src[i..][0] == src[i] && src[i..][1..] == src[i + 1..];
        var exn := PokeUb(at, src[i]);
        if exn != OK {
          assert Memory.PokeUb(codec, before, at, src[i]).Throw?;
          return ESCAPED;
        }
        PokeAllFirst(codec, before, at, src[i..], mem[..]);
        at := ToWord(at + 1);
      }
      status := DONE;
    }

    method CopyIn(dst: array<Byte>, src: Word, n: Word) returns (status: Transfer)
      requires Valid() && n <= dst.Length
      modifies dst
      ensures match BulkCopy.CopyIn(codec, mem[..], src, n)
              case Read(bytes) => status == DONE && dst[..] == bytes + old(dst[n..])
              case ReadRefused => status == REFUSED && dst[..] == old(dst[..])
              case ReadEscaped(bytes) => |bytes| < n && status == ESCAPED && dst[..] == bytes + old(dst[|bytes|..])
    {
      hide Memory.PeekUb;
      if ToWord(src + n) >= 4 * mem.Length {
        return REFUSED;
      }
      var at: Word := src;
      for i := 0 to n
        invariant Valid()
        invariant dst[i..] == old(dst[i..])
        invariant PeekAll(codec, mem[..], src, n) == Prepended(dst[..i], PeekAll(codec, mem[..], at, n - i))
      {
        var b := PeekUb(at);
        if b.Throw? {
          assert dst[..] == dst[..i] + dst[i..];
          return ESCAPED;
        }
        dst[i] := b.value;
        assert dst[..i + 1] == dst[..i] + [b.value];
        PrependTwice(dst[..i], b.value, PeekAll(codec, mem[..], ToWord(at + 1), n - i - 1));
        at := ToWord(at + 1);
      }
      assert dst[..] == dst[..n] + dst[n..];
      status := DONE;
    }
  }

  datatype Transfer = DONE | REFUSED | ESCAPED

  ghost function Prepended(bytes: seq<Byte>, r: CopyInResult): CopyInResult {
    match r
    case Read(rest) => Read(bytes + rest)
    case ReadEscaped(rest) => ReadEscaped(bytes + rest)
    case ReadRefused => ReadRefused
  }

  lemma PrependTwice(bytes: seq<Byte>, b: Byte, r: CopyInResult)
    ensures Prepended(bytes + [b], r) == Prepended(bytes, Prepended([b], r))
  {
    if !r.ReadRefused? {
      assert bytes + [b] + r.bytes == bytes + ([b] + r.bytes);
    }
  }
}
