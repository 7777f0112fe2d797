/** What every step keeps: precise exceptions, register 0, the control block and the delay slot. */
module StepProperties {
  import opened Bits
  import opened Memory
  import opened Machine
  import Op = Opcodes

  // ----- Handlers -----

  /** A throw leaves the state `st` as it was, unless C does not define what happens. */
  ghost predicate Precise<T>(o: Outcome<T>, st: T) {
    o.exn != OK && o.exn != UNDEFINED ==> o.st == st
  }

  lemma AluPrecise(insn: Word, op: int, g: Gprs)
    ensures Precise(DoAlui(insn, op, g), g) && DoAlui(insn, op, g).st.r[0] == g.r[0]
    ensures DoAlui(insn, op, g).exn == ABORT <==> !IsAlui(op)
    ensures Precise(DoAlu3(insn, op, g), g) && DoAlu3(insn, op, g).st.r[0] == g.r[0]
    ensures DoAlu3(insn, op, g).exn == ABORT <==> !IsAlu3(op)
  {
  }

  lemma DivMultPrecise(insn: Word, op: int, g: Gprs)
    ensures Precise(DoDivMult(insn, op, g), g) && DoDivMult(insn, op, g).st.r[0] == g.r[0]
    ensures DoDivMult(insn, op, g).exn == ABORT <==> !IsDivMult(op)
  {
  }

  lemma TransferPrecise(insn: Word, op: int, core: Core)
    ensures Precise(DoJump(insn, op, core), core) && DoJump(insn, op, core).st.g.r[0] == core.g.r[0]
    ensures DoJump(insn, op, core).exn == ABORT ==> !IsJump(op)
    ensures Precise(DoBranch(insn, op, core), core) && DoBranch(insn, op, core).st.g.r[0] == core.g.r[0]
    ensures DoBranch(insn, op, core).exn == ABORT ==> !IsBranch(op)
  {
  }

  lemma LoadStorePrecise(c: Codec, insn: Word, op: int, m: State)
    ensures Precise(DoLoadStore(c, insn, op, m), m)
    ensures DoLoadStore(c, insn, op, m).st.core.g.r[0] == m.core.g.r[0]
    ensures DoLoadStore(c, insn, op, m).exn == ABORT <==> !IsLoadStore(op)
  {
  }

  /** A handler that throws leaves the machine as it was, no handler writes register 0, and every
      decodable opcode is handled. */
  lemma DispatchPrecise(c: Codec, insn: Word, op: int, m: State)
    requires Op.IsOpcode(op) && op != Op.SPECIAL && op != Op.REGIMM
    ensures Dispatch(c, insn, op, m).exn != ABORT
    ensures Precise(Dispatch(c, insn, op, m), m)
    ensures Dispatch(c, insn, op, m).st.core.g.r[0] == m.core.g.r[0]
  {
    AluPrecise(insn, op, m.core.g);
    DivMultPrecise(insn, op, m.core.g);
    TransferPrecise(insn, op, m.core);
    LoadStorePrecise(c, insn, op, m);
  }

  /** UNDEFINED is raised by one instruction only: DIV of the least integer by -1. */
  lemma OnlyDivIsUndefined(c: Codec, insn: Word, op: int, m: State)
    ensures Dispatch(c, insn, op, m).exn == UNDEFINED <==>
            && op == Op.DIV && insn / 0x40 % 0x400 == 0
            && Rs(insn, m.core.g.r) == 0x8000_0000 && Rt(insn, m.core.g.r) == ALL_ONES
    ensures Dispatch(c, insn, op, m).exn == UNDEFINED ==> Dispatch(c, insn, op, m).st.mem == m.mem
  {
  }

  // ----- Steps -----

  /** Precise exceptions: a step that does not succeed changes nothing, so it repeats itself. */
  lemma ExceptionAtomicity(c: Codec, m: State)
    requires Step(c, m).exn != OK && Step(c, m).exn != UNDEFINED
    ensures Step(c, m).st == m
    ensures Step(c, Step(c, m).st) == Step(c, m)
  {
    hide Dispatch;
    match Fetch(c, m)
    case Throw(_) =>
    case Value(insn) =>
      var op := Op.Decode(insn);
      if op >= 0 && m.core.g.r[0] == 0 {
        DispatchPrecise(c, insn, op, m);
      }
  }

  lemma ZeroRegisterKept(c: Codec, m: State)
    ensures Step(c, m).st.core.g.r[0] == m.core.g.r[0]
  {
    match Fetch(c, m)
    case Throw(_) =>
    case Value(insn) =>
      var op := Op.Decode(insn);
      if op >= 0 {
        DispatchPrecise(c, insn, op, m);
      }
  }

  /** The internal-error exception means exactly that register 0 was corrupt at a valid instruction. */
  lemma AbortIffCorruptZero(c: Codec, m: State)
    ensures Step(c, m).exn == ABORT <==>
            && Fetch(c, m).Value? && Op.Decode(Fetch(c, m).value) >= 0
            && m.core.g.r[0] != 0
  {
    match Fetch(c, m)
    case Throw(_) =>
    case Value(insn) =>
      var op := Op.Decode(insn);
      if op >= 0 {
        DispatchPrecise(c, insn, op, m);
      }
  }

  // ----- Runs -----

  /** A run is a step followed by a run, however it is cut: it goes on exactly when the first part ended
      in OK, from the state that part left. */
  lemma {:induction false} RunComposes(c: Codec, m: State, a: nat, b: nat)
    ensures Run(c, m, 0) == Outcome(OK, m) && Run(c, m, 1) == Step(c, m)
    ensures Run(c, m, a + b) == if Run(c, m, a).exn == OK then Run(c, Run(c, m, a).st, b) else Run(c, m, a)
    decreases a
  {
    hide Step;
    assert Step(c, m).exn == OK ==> Run(c, Step(c, m).st, 0) == Outcome(OK, Step(c, m).st);
    if a > 0 && Step(c, m).exn == OK {
      RunComposes(c, Step(c, m).st, a - 1, b);
    }
  }

  /** No run from a state with register 0 clear ever ends in ABORT. */
  lemma {:induction false} NoAbort(c: Codec, m: State, n: nat)
    requires m.core.g.r[0] == 0
    ensures Run(c, m, n).exn != ABORT
    ensures Run(c, m, n).st.core.g.r[0] == 0
    decreases n
  {
    hide Step;
    if n > 0 {
      AbortIffCorruptZero(c, m);
      ZeroRegisterKept(c, m);
      NoAbort(c, Step(c, m).st, if Step(c, m).exn == OK then n - 1 else 0);
    }
  }

  // ----- The control block -----

  lemma StepKeepsControlBlock(c: Codec, m: State)
    ensures SameControlBlock(m.mem, Step(c, m).st.mem)
  {
    hide DoLoadStore, DoJump, DoBranch, DoAlui, DoAlu3, DoDivMult, PeekUw, Op.Decode;
    match Fetch(c, m)
    case Throw(_) =>
    case Value(insn) =>
      var op := Op.Decode(insn);
      if IsLoadStore(op) {
        LoadStoreKeepsControlBlock(c, insn, op, m);
      }
  }

  lemma LoadStoreKeepsControlBlock(c: Codec, insn: Word, op: int, m: State)
    ensures SameControlBlock(m.mem, DoLoadStore(c, insn, op, m).st.mem)
  {
    var ea, rt := EffectiveAddress(insn, m.core.g.r), Rt(insn, m.core.g.r);
    PokesKeepControlBlock(c, m.mem, ea, rt);
    if op == Op.SWL || op == Op.SWR {
      UnalignedKeepsControlBlock(c, m.mem, ea, rt);
    }
  }

  lemma UnalignedKeepsControlBlock(c: Codec, mem: Ram, ea: Word, rt: Word)
    ensures KeepsControlBlock(mem, StoreLeft(c, mem, ea, rt))
    ensures KeepsControlBlock(mem, StoreRight(c, mem, ea, rt))
  {
  }

  /** No run writes the words that hold the CPU state. */
  lemma {:induction false} ControlBlockIsolated(c: Codec, m: State, n: nat)
    ensures SameControlBlock(m.mem, Run(c, m, n).st.mem)
    decreases n
  {
    hide Step;
    if n > 0 {
      StepKeepsControlBlock(c, m);
      if Step(c, m).exn == OK {
        ControlBlockIsolated(c, Step(c, m).st, n - 1);
      }
    }
  }

  // ----- The delay slot -----

  /** A pending delay slot is aligned, follows a guest word, and that word is a jump or a branch. */
  ghost predicate SlotFollowsTransfer(c: Codec, m: State) {
    m.core.ds != 0 ==>
      && m.core.ds >= LOWBASE + 4
      && HookAddress(m.mem, m.core.ds - 4)
      && IsTransfer(Op.Decode(HookPeek(c, m.mem, m.core.ds - 4)))
  }

  ghost predicate SlotArmed(o: Outcome<Core>, core: Core) {
    && (o.exn != OK ==> o.st == core)
    && (o.exn == OK ==> core.ds == 0)
    && (o.exn == OK ==> o.st.ds == ToWord(core.pc + 4) || (o.st.ds == 0 && o.st.pc == core.pc))
  }

  lemma TransferSlot(insn: Word, op: int, core: Core)
    ensures SlotArmed(DoJump(insn, op, core), core)
    ensures SlotArmed(DoBranch(insn, op, core), core)
  {
  }

  /** Only control transfers touch PC or the delay slot, and they leave memory alone. */
  lemma DispatchSlot(c: Codec, insn: Word, op: int, m: State)
    ensures var o := Dispatch(c, insn, op, m);
            && (!IsTransfer(op) ==> o.st.core.pc == m.core.pc && o.st.core.ds == m.core.ds)
            && (IsTransfer(op) ==> o.st.mem == m.mem && SlotArmed(Outcome(o.exn, o.st.core), m.core))
  {
    TransferSlot(insn, op, m.core);
  }

  lemma StepKeepsSlot(c: Codec, m: State)
    requires SlotFollowsTransfer(c, m)
    ensures SlotFollowsTransfer(c, Step(c, m).st)
  {
    hide Dispatch;
    match Fetch(c, m)
    case Throw(_) =>
    case Value(insn) =>
      var op := Op.Decode(insn);
      DispatchSlot(c, insn, op, m);
      if Step(c, m).exn == UNDEFINED {
        OnlyDivIsUndefined(c, insn, op, m);
      } else if Step(c, m).exn != OK {
        ExceptionAtomicity(c, m);
      }
  }

  lemma {:induction false} SlotInvariant(c: Codec, m: State, n: nat)
    requires SlotFollowsTransfer(c, m)
    ensures SlotFollowsTransfer(c, Run(c, m, n).st)
    decreases n
  {
    hide Step;
    if n > 0 {
      StepKeepsSlot(c, m);
      if Step(c, m).exn == OK {
        SlotInvariant(c, Step(c, m).st, n - 1);
      }
    }
  }

  /** 0 can stand for "no slot": the slot armed by a transfer is the next word, without wrap-around, and
      a transfer that arms none just moves on to that word. */
  lemma SlotIsNextWord(c: Codec, m: State)
    requires Step(c, m).exn == OK && IsTransfer(Op.Decode(Fetch(c, m).value))
    ensures var core := Step(c, m).st.core;
            && m.core.ds == 0
            && (core.ds == m.core.pc + 4 || (core.ds == 0 && core.pc == m.core.pc + 4))
  {
    hide Dispatch, Op.Decode;
    var insn := Fetch(c, m).value;
    DispatchSlot(c, insn, Op.Decode(insn), m);
  }

  /** The slot instruction is executed once: a step from a pending slot clears it and keeps PC,
      and a control transfer there is an invalid instruction. */
  lemma SlotRunsOnce(c: Codec, m: State)
    requires m.core.ds != 0
    ensures Step(c, m).exn == OK ==> Step(c, m).st.core.ds == 0 && Step(c, m).st.core.pc == m.core.pc
    ensures Fetch(c, m).Value? && m.core.g.r[0] == 0 && IsTransfer(Op.Decode(Fetch(c, m).value)) ==>
              Step(c, m) == Outcome(INVALID, m)
  {
    match Fetch(c, m)
    case Throw(_) =>
    case Value(insn) => DispatchSlot(c, insn, Op.Decode(insn), m);
  }
}
