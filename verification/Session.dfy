/** Running a program: steps, traps, host services and resumption. */
module Session {
  import opened Bits
  import opened Memory
  import opened Machine
  import opened StepProperties
  import opened Simulation
  import opened TwoPc
  import Op = Opcodes

  const SPIM_SYSCALL := 0x9107C

  // ----- Host services -----

  /** What a service does next: a checked access to one byte of guest memory, or to end with a result
      code, new registers and a new host state. */
  datatype Action<+H> = ReadByte(a: Word) | WriteByte(a: Word, v: Byte) | Finish(code: int, g: Gprs, h: H)

  /** What became of an access. */
  datatype Answer = Byte(v: Byte) | Done | Faulted(exn: Exn)

  /** The services of the host, over its own state `H`: files, pending input and the program break. */
  datatype Services<!H> = Services(next: (H, Gprs) -> Action<H>, reply: (H, Answer) -> H)

  // ----- The execution loop -----

  datatype Phase = Executing | Serving

  /** The loop's variables; `opcode` keeps the last opcode reported and is unset at first. */
  datatype Loop<H> = Loop(m: State, h: H, opcode: Option<int>, phase: Phase)

  datatype Ending =
    BreakEnd(code: int) | BadSyscall(code: int) | ServiceFault(code: int) | Exception(exn: Exn) | UnsetOpcode

  datatype Tick<H> = Continue(loop: Loop<H>) | End(ending: Ending, m: State, h: H)

  /** After an exception `exn`: the switch on the reported opcode, or on the previous one when the word at
      PC cannot be read. */
  function OnException<H>(c: Codec, l: Loop<H>, exn: Exn): Tick<H> {
    var report := BreakCode(c, l.m);
    var opcode := if report.opcode.Some? then report.opcode else l.opcode;
    match opcode
    case None => End(UnsetOpcode, l.m, l.h)
    case Some(op) =>
      if op == Op.BREAK then End(BreakEnd(report.code), l.m, l.h)
      else if op != Op.SYSCALL then End(Exception(exn), l.m, l.h)
      else if report.code != SPIM_SYSCALL then End(BadSyscall(report.code), l.m, l.h)
      else Continue(Loop(l.m, l.h, opcode, Serving))
  }

  function Serve<H>(c: Codec, svc: Services<H>, l: Loop<H>): Tick<H> {
    match svc.next(l.h, l.m.core.g)
    case ReadByte(a) =>
      Continue(l.(h := svc.reply(l.h, match PeekUb(c, l.m.mem, a) case Value(v) => Byte(v) case Throw(e) => Faulted(e))))
    case WriteByte(a, v) =>
      (match PokeUb(c, l.m.mem, a, v)
       case Value(mem) => Continue(l.(m := l.m.(mem := mem), h := svc.reply(l.h, Done)))
       case Throw(e) => Continue(l.(h := svc.reply(l.h, Faulted(e)))))
    case Finish(code, g, h) =>
      var m := WithRegisters(l.m, g);
      if code != 0 then End(ServiceFault(code), m, h)
      else Continue(Loop(Resume(c, m).0, h, l.opcode, Executing))
  }

  function WithRegisters(m: State, g: Gprs): State {
    m.(core := m.core.(g := g))
  }

  /** One call of the interpreter, or one action of a service. */
  function TickOnce<H>(c: Codec, svc: Services<H>, l: Loop<H>): Tick<H> {
    if l.phase == Serving then Serve(c, svc, l)
    else
      var o := Step(c, l.m);
      if o.exn == OK then Continue(l.(m := o.st)) else OnException(c, l.(m := o.st), o.exn)
  }

  /** The execution loop, cut off after `n` ticks. */
  function Session<H>(c: Codec, svc: Services<H>, l: Loop<H>, n: nat): Tick<H>
    decreases n
  {
    if n == 0 then Continue(l)
    else match TickOnce(c, svc, l)
      case Continue(next) => Session(c, svc, next, n - 1)
      case End(e, m, h) => End(e, m, h)
  }

  // ----- Executing -----

  /** As long as a run goes well, the session is that run and nothing else changes. */
  lemma {:induction false} SessionRuns<H>(c: Codec, svc: Services<H>, l: Loop<H>, n: nat)
    requires l.phase == Executing && Run(c, l.m, n).exn == OK
    ensures Session(c, svc, l, n) == Continue(Loop(Run(c, l.m, n).st, l.h, l.opcode, Executing))
    decreases n
  {
    hide Step, OnException;
    if n > 0 {
      SessionRuns(c, svc, l.(m := Step(c, l.m).st), n - 1);
    }
  }

  // ----- What a service does -----

  /** One tick of a service, whatever it does. A read or write of guest memory is answered by the byte or by
      an address fault; memory changes in the byte written only. A result is taken over: registers and host
      state, and either the session ends with its code, or PC moves on over a trap. */
  lemma ServingTick<H>(c: Codec, svc: Services<H>, l: Loop<H>)
    requires Sound(c) && l.phase == Serving
    ensures match svc.next(l.h, l.m.core.g)
            case ReadByte(a) =>
              TickOnce(c, svc, l) ==
              Continue(Loop(l.m, svc.reply(l.h, if 0x1000 <= a < 4 * |l.m.mem| then Byte(ByteAt(c, l.m.mem, a)) else Faulted(ADDRESS)),
                            l.opcode, Serving))
            case WriteByte(a, v) =>
              var t := TickOnce(c, svc, l);
              && t.Continue?
              && t.loop == Loop(State(l.m.core, t.loop.m.mem),
                                svc.reply(l.h, if 0x1000 <= a < 4 * |l.m.mem| then Done else Faulted(ADDRESS)), l.opcode, Serving)
              && SameControlBlock(l.m.mem, t.loop.m.mem)
              && (!(0x1000 <= a < 4 * |l.m.mem|) ==> t.loop.m.mem == l.m.mem)
              && forall b: nat {:trigger ByteAt(c, t.loop.m.mem, b)} :: GuestByte(l.m.mem, b) ==>
                   ByteAt(c, t.loop.m.mem, b) == if b == a then v else ByteAt(c, l.m.mem, b)
            case Finish(code, g, h) =>
              TickOnce(c, svc, l) ==
              if code != 0 then End(ServiceFault(code), State(Core(g, l.m.core.pc, l.m.core.ds), l.m.mem), h)
              else
                var pc := if TrapAt(c, l.m.mem, l.m.core.pc) == NoTrap then l.m.core.pc else (l.m.core.pc + 4) % 0x1_0000_0000;
                Continue(Loop(State(Core(g, pc, l.m.core.ds), l.m.mem), h, l.opcode, Executing))
  {
    hide PeekUb, PokeUb, ByteAt, PeekUw, Op.Decode, BytesWritten;
    match svc.next(l.h, l.m.core.g)
    case ReadByte(a) => PeekUbReadsByte(c, l.m.mem, a);
    case WriteByte(a, v) => WriteTick(c, l.m.mem, a, v);
    case Finish(_, _, _) =>
  }

  lemma WriteTick(c: Codec, mem: Ram, a: Word, v: Byte)
    requires Sound(c)
    ensures match PokeUb(c, mem, a, v)
            case Throw(e) => e == ADDRESS && !(0x1000 <= a < 4 * |mem|)
            case Value(mem') =>
              && 0x1000 <= a < 4 * |mem| && SameControlBlock(mem, mem')
              && forall b: nat {:trigger ByteAt(c, mem', b)} :: GuestByte(mem, b) ==>
                   ByteAt(c, mem', b) == if b == a then v else ByteAt(c, mem, b)
  {
    hide PokeUb, ByteAt;
    PokeUbWritesByte(c, mem, a, v);
    assert a % 1 == 0 && ByteOf(v, 0) == v;
  }

  /** A system call from start to end, for a service that finishes at once: behind it the program goes on at
      PC + 4 with the registers the service has left. */
  lemma ServedCall<H>(c: Codec, svc: Services<H>, l: Loop<H>, g: Gprs, h: H)
    requires Sound(c) && l.phase == Executing && l.m.core.ds == 0 && l.m.core.g.r[0] == 0
    requires PeekUw(c, l.m.mem, l.m.core.pc) == Value(0x40 * 0x9107C + 0x0C)
    requires svc.next(l.h, l.m.core.g) == Finish(0, g, h)
    ensures Session(c, svc, l, 2) ==
            Continue(Loop(State(Core(g, (l.m.core.pc + 4) % 0x1_0000_0000, 0), l.m.mem), h, Some(0x4C), Executing))
  {
    hide PeekUw, Op.Decode;
    assert Op.Decode(0x40 * 0x9107C + 0x0C) == 0x4C by {
      Op.DecodeSpecial(0x4C, 0x9107C);
    }
    var serving := l.(opcode := Some(0x4C), phase := Serving);
    CallTick(c, svc, l);
    ServingTick(c, svc, serving);
    assert Session(c, svc, l, 2) == Session(c, svc, serving, 1);
    assert Session(c, svc, serving, 1) == TickOnce(c, svc, serving);
  }

  lemma CallTick<H>(c: Codec, svc: Services<H>, l: Loop<H>)
    requires l.phase == Executing && l.m.core.ds == 0 && l.m.core.g.r[0] == 0
    requires PeekUw(c, l.m.mem, l.m.core.pc) == Value(0x40 * 0x9107C + 0x0C) && Op.Decode(0x40 * 0x9107C + 0x0C) == 0x4C
    ensures TickOnce(c, svc, l) == Continue(l.(opcode := Some(0x4C), phase := Serving))
  {
    hide PeekUw, Op.Decode;
    assert Step(c, l.m) == Outcome(Exn.SYSCALL, l.m);
  }

  // ----- Trap reports -----

  lemma FetchCases(c: Codec, mem: Ram, a: Word)
    ensures match PeekUw(c, mem, a) case Value(_) => a + 4 < WORD case Throw(e) => e == ADDRESS
  {
  }

  lemma OnlyTrapsTrap(c: Codec, insn: Word, op: int, m: State)
    ensures Dispatch(c, insn, op, m).exn == SYSCALL <==> op == Op.SYSCALL
    ensures Dispatch(c, insn, op, m).exn == BREAK <==> op == Op.BREAK
  {
  }

  /** The exception a step raises is the trap in the word it fetched, or no trap. */
  lemma StepRaises(c: Codec, m: State)
    requires m.core.g.r[0] == 0 && Step(c, m).exn != OK
    ensures match TrapAt(c, m.mem, FetchAddress(m.core))
            case SyscallTrap(_) => Step(c, m) == Outcome(Exn.SYSCALL, m)
            case BreakTrap(_) => Step(c, m) == Outcome(Exn.BREAK, m)
            case NoTrap => Step(c, m).exn != SYSCALL && Step(c, m).exn != BREAK
  {
    hide PeekUw, Dispatch, Op.Decode;
    FetchCases(c, m.mem, FetchAddress(m.core));
    match Fetch(c, m)
    case Throw(_) =>
    case Value(insn) =>
      var op := Op.Decode(insn);
      if op >= 0 {
        DispatchPrecise(c, insn, op, m);
        OnlyTrapsTrap(c, insn, op, m);
      }
  }

  /** The report names the exception that was raised: the trap's opcode and the code field of the word
      that was executed, and neither SYSCALL nor BREAK for any other exception. */
  ghost predicate ReportsRaised(c: Codec, m: State) {
    var r, exn := BreakCode(c, m), Step(c, m).exn;
    if exn == SYSCALL then
      Fetch(c, m).Value? && r == Report(Some(Op.SYSCALL), Fetch(c, m).value / 0x40 % 0x10_0000)
    else if exn == BREAK then
      Fetch(c, m).Value? && r == Report(Some(Op.BREAK), Fetch(c, m).value / 0x1_0000 % 0x400)
    else r.opcode != Some(Op.SYSCALL) && r.opcode != Some(Op.BREAK)
  }

  /** It does if and only if no slot is pending or the words at PC and in the slot hold the same trap. */
  lemma ReportExact(c: Codec, m: State)
    requires m.core.g.r[0] == 0 && Step(c, m).exn != OK
    ensures ReportsRaised(c, m) <==>
            m.core.ds == 0 || TrapAt(c, m.mem, m.core.pc) == TrapAt(c, m.mem, m.core.ds)
  {
    hide PeekUw, Dispatch, Op.Decode, Step;
    StepRaises(c, m);
  }

  /** What mips_break_code is documented to hand back: the opcode of the faulting instruction, and its code
      field if it is a trap. */
  function DocumentedReport(insn: Word): Report {
    Report(Some(Op.Decode(insn)), match TrapIn(insn) case BreakTrap(code) => code case SyscallTrap(code) => code case NoTrap => -1)
  }

  /** It names the opcode of the instruction that was fetched if and only if no slot is pending or the word
      at PC can be read and has the same opcode; and it is the documented report if and only if, besides,
      the two hold the same trap. */
  lemma OpcodeExact(c: Codec, m: State)
    requires Fetch(c, m).Value?
    ensures var insn, atPc := Fetch(c, m).value, PeekUw(c, m.mem, m.core.pc);
            && (BreakCode(c, m).opcode == Some(Op.Decode(insn)) <==>
                  m.core.ds == 0 || (atPc.Value? && Op.Decode(atPc.value) == Op.Decode(insn)))
            && (BreakCode(c, m) == DocumentedReport(insn) <==>
                  m.core.ds == 0 ||
                  (atPc.Value? && Op.Decode(atPc.value) == Op.Decode(insn) && TrapIn(atPc.value) == TrapIn(insn)))
  {
    hide PeekUw, Op.Decode;
  }

  /** Resuming after a trap moves to the next instruction, as the two-PC machine counts them, and changes
      nothing else, if and only if no slot is pending or the slot is the word at PC: the delay slot is
      never cleared, so a trap in a slot is executed again. */
  lemma ResumeExact(c: Codec, m: State)
    requires m.core.g.r[0] == 0 && (Step(c, m).exn == SYSCALL || Step(c, m).exn == BREAK)
    ensures var a := View(m);
            View(Resume(c, m).0) == Arch(a.g, a.npc, ToWord(a.npc + 4), a.mem) <==>
            m.core.ds == 0 || m.core.ds == m.core.pc
  {
    hide PeekUw, Dispatch, Op.Decode, Step;
    StepRaises(c, m);
    FetchCases(c, m.mem, m.core.pc);
    FetchCases(c, m.mem, FetchAddress(m.core));
  }

  /** After any other exception resuming leaves the machine as it is, so that the instruction is tried
      again, if and only if no slot is pending or the word at PC is no trap. */
  lemma RestartExact(c: Codec, m: State)
    requires m.core.g.r[0] == 0 && Step(c, m).exn != OK && Step(c, m).exn != SYSCALL && Step(c, m).exn != BREAK
    ensures Resume(c, m) == (m, false) <==> m.core.ds == 0 || TrapAt(c, m.mem, m.core.pc) == NoTrap
  {
    hide PeekUw, Dispatch, Op.Decode, Step;
    StepRaises(c, m);
    FetchCases(c, m.mem, m.core.pc);
  }

  /** Outside a delay slot, then, SYSCALL and BREAK are reported with their code fields and resumed by
      advancing PC alone; any other exception is neither reported as a trap nor resumed. */
  lemma TrapAndResume(c: Codec, m: State)
    requires m.core.ds == 0
    ensures Step(c, m).exn == SYSCALL || Step(c, m).exn == BREAK ==>
              && Step(c, m).st == m && ReportsRaised(c, m)
              && Resume(c, m) == (m.(core := m.core.(pc := m.core.pc + 4)), true)
    ensures Step(c, m).exn != OK && Step(c, m).exn != SYSCALL && Step(c, m).exn != BREAK && m.core.g.r[0] == 0 ==>
              ReportsRaised(c, m) && Resume(c, m) == (m, false)
  {
    hide PeekUw, Dispatch, Op.Decode;
    FetchCases(c, m.mem, m.core.pc);
    if m.core.g.r[0] == 0 && Step(c, m).exn != OK {
      StepRaises(c, m);
      ReportExact(c, m);
    }
  }

  lemma WitnessWords()
    ensures Op.Decode(0xFC00_0000) == -1
    ensures Op.Decode(0x0000_000C) == Op.SYSCALL && TrapIn(0x0000_000C) == SyscallTrap(0)
    ensures Op.Decode(0x0000_0020) == Op.ADD && TrapIn(0x0000_0020) == NoTrap
  {
  }

  /** In a delay slot the report can be wrong: here BEQ goes to a SYSCALL and its slot holds an invalid
      word. The exception is INVALID, yet the report is a system call and resuming moves PC. */
  lemma SlotFaultReportedAsSyscall() returns (start: State, m: State)
    ensures start.core.ds == 0 && Step(IDENTITY, start) == Outcome(OK, m)
    ensures Step(IDENTITY, m) == Outcome(INVALID, m)
    ensures BreakCode(IDENTITY, m) == Report(Some(Op.SYSCALL), 0)
    ensures Resume(IDENTITY, m).1 && Resume(IDENTITY, m).0 != m
  {
    hide Op.Decode, TrapIn, PeekUw, Dispatch;
    WitnessWords();
    start, m := BranchOverSlot(0xFC00_0000, 0x0000_000C);
    assert Fetch(IDENTITY, m) == Value(0xFC00_0000);
  }

  /** A SYSCALL in the slot of a branch, resumed, is executed a second time. */
  lemma SlotTrapRepeats() returns (start: State, m: State)
    ensures start.core.ds == 0 && Step(IDENTITY, start) == Outcome(OK, m)
    ensures Step(IDENTITY, m) == Outcome(Exn.SYSCALL, m) && Resume(IDENTITY, m).1
    ensures var again := Resume(IDENTITY, m).0;
            again.core.ds == m.core.ds && Step(IDENTITY, again) == Outcome(Exn.SYSCALL, again)
  {
    var syscall := 0x0000_000C;
    start, m := BranchOverSlot(syscall, syscall);
    assert Op.Decode(syscall) == Op.SYSCALL;
    var again := Resume(IDENTITY, m).0;
    assert Fetch(IDENTITY, m) == Value(syscall) == Fetch(IDENTITY, again);
  }

  /** An invalid word in the slot of a branch to an ADD: no trap is reported and none was raised, but the
      opcode in the report is ADD. */
  lemma SlotFaultReportedAsAdd() returns (start: State, m: State)
    ensures start.core.ds == 0 && Step(IDENTITY, start) == Outcome(OK, m)
    ensures Step(IDENTITY, m) == Outcome(INVALID, m) && ReportsRaised(IDENTITY, m)
    ensures Fetch(IDENTITY, m).Value? && Op.Decode(Fetch(IDENTITY, m).value) == -1
    ensures BreakCode(IDENTITY, m) == Report(Some(Op.ADD), -1)
  {
    hide Op.Decode, TrapIn, PeekUw, Dispatch;
    WitnessWords();
    start, m := BranchOverSlot(0xFC00_0000, 0x0000_0020);
    assert Fetch(IDENTITY, m) == Value(0xFC00_0000);
  }

  /** BEQ at 0x1000 to the word `there` at 0x1008, with `slot` in between; `m` is the state after the branch. */
  lemma BranchOverSlot(slot: Word, there: Word) returns (start: State, m: State)
    ensures start.core.ds == 0 && Step(IDENTITY, start) == Outcome(OK, m)
    ensures m.core == RESET_CORE.(pc := 0x1008, ds := 0x1004)
    ensures PeekUw(IDENTITY, m.mem, 0x1004) == Value(slot)
    ensures PeekUw(IDENTITY, m.mem, 0x1008) == Value(there)
  {
    var beq := 0x1000_0001;
    var mem: Ram := seq(0x403, i => if i == 0x400 then beq else if i == 0x401 then slot else there);
    start := State(RESET_CORE.(pc := 0x1000), mem);
    m := State(RESET_CORE.(pc := 0x1008, ds := 0x1004), mem);
    assert mem[0x400] == beq && mem[0x401] == slot && mem[0x402] == there;
    assert Fetch(IDENTITY, start) == Value(beq);
    assert Op.Decode(beq) == Op.BEQ && SImm(beq) == 1;
  }

  // ----- The verdict of the loop -----

  /** After a failing step the loop does what the exception that was raised calls for: it serves a system
      call of the right code, and ends by name and code of any other trap, or by the exception. */
  ghost predicate RightVerdict<H>(c: Codec, svc: Services<H>, l: Loop<H>) {
    var exn, t := Step(c, l.m).exn, TickOnce(c, svc, l);
    if exn == SYSCALL then
      Fetch(c, l.m).Value? && var code := Fetch(c, l.m).value / 0x40 % 0x10_0000;
      t == if code == SPIM_SYSCALL then Continue(l.(opcode := Some(Op.SYSCALL), phase := Serving))
           else End(BadSyscall(code), l.m, l.h)
    else if exn == BREAK then
      Fetch(c, l.m).Value? && t == End(BreakEnd(Fetch(c, l.m).value / 0x1_0000 % 0x400), l.m, l.h)
    else t == End(Exception(exn), l.m, l.h)
  }

  /** It does so if and only if the word at PC can be read, and no slot is pending or that word and the one
      in the slot hold the same trap. */
  lemma VerdictExact<H>(c: Codec, svc: Services<H>, l: Loop<H>)
    requires l.phase == Executing && l.m.core.g.r[0] == 0
    requires Step(c, l.m).exn != OK && Step(c, l.m).exn != UNDEFINED
    requires l.opcode == None || l.opcode == Some(Op.SYSCALL)
    ensures RightVerdict(c, svc, l) <==>
            && PeekUw(c, l.m.mem, l.m.core.pc).Value?
            && (l.m.core.ds == 0 || TrapAt(c, l.m.mem, l.m.core.pc) == TrapAt(c, l.m.mem, l.m.core.ds))
  {
    hide PeekUw, Dispatch, Op.Decode, Step;
    ExceptionAtomicity(c, l.m);
    StepRaises(c, l.m);
    ReportExact(c, l.m);
  }

  // ----- The stale opcode -----

  /** When the word at PC cannot be read, the loop decides by the opcode of an earlier iteration: only a
      system call can have been before, so the end is a bad system call with code -1 instead of the
      exception; without one, the opcode is read unset. */
  lemma UnreadablePcUsesOldOpcode<H>(c: Codec, svc: Services<H>, l: Loop<H>, n: nat)
    requires l.phase == Executing && n > 0 && PeekUw(c, l.m.mem, l.m.core.pc).Throw?
    requires Step(c, l.m).exn != OK && Step(c, l.m).exn != UNDEFINED
    requires l.opcode == None || l.opcode == Some(Op.SYSCALL)
    ensures Session(c, svc, l, n) ==
            End(if l.opcode == None then UnsetOpcode else BadSyscall(-1), l.m, l.h)
  {
    hide PeekUw, Step;
    ExceptionAtomicity(c, l.m);
    assert TickOnce(c, svc, l).End?;
  }

  /** A host whose services return at once and change nothing. */
  function PromptService(): Services<int> {
    Services((h, g) => Finish(0, g, h), (h, a) => h)
  }

  /** A program gets there: its last word of memory is a system call, which is served and resumed. */
  lemma StaleOpcodeReached() returns (start: State, last: State)
    ensures start.core == RESET_CORE.(pc := 0x1000) && Step(IDENTITY, last) == Outcome(ADDRESS, last)
    ensures forall h: int ::
              Session(IDENTITY, PromptService(), Loop(start, h, None, Executing), 3) ==
              End(BadSyscall(-1), last, h)
  {
    var syscall := 0x0244_1F0C;
    var mem: Ram := seq(0x401, _ => syscall);
    start, last := State(RESET_CORE.(pc := 0x1000), mem), State(RESET_CORE.(pc := 0x1004), mem);
    assert mem[0x400] == syscall;
    assert PeekUw(IDENTITY, mem, 0x1000) == Value(syscall) && PeekUw(IDENTITY, mem, 0x1004) == Throw(ADDRESS);
    assert Op.Decode(syscall) == Op.SYSCALL;
    assert Step(IDENTITY, start) == Outcome(Exn.SYSCALL, start);
    assert BreakCode(IDENTITY, start) == Report(Some(Op.SYSCALL), SPIM_SYSCALL);
    assert Resume(IDENTITY, start) == (last, true);
    forall h: int
      ensures Session(IDENTITY, PromptService(), Loop(start, h, None, Executing), 3) ==
              End(BadSyscall(-1), last, h)
    {
      StaleEnding(start, last, h);
    }
  }

  lemma StaleEnding(start: State, last: State, h: int)
    requires Step(IDENTITY, start) == Outcome(Exn.SYSCALL, start) && Resume(IDENTITY, start) == (last, true)
    requires BreakCode(IDENTITY, start) == Report(Some(Op.SYSCALL), SPIM_SYSCALL)
    requires Step(IDENTITY, last) == Outcome(ADDRESS, last) && BreakCode(IDENTITY, last) == Report(None, -1)
    ensures Session(IDENTITY, PromptService(), Loop(start, h, None, Executing), 3) ==
            End(BadSyscall(-1), last, h)
  {
    hide Step, BreakCode, Resume;
    var svc, calling := PromptService(), Loop(start, h, None, Executing);
    var serving := calling.(opcode := Some(Op.SYSCALL), phase := Serving);
    var stale := Loop(last, h, Some(Op.SYSCALL), Executing);
    assert TickOnce(IDENTITY, svc, calling) == Continue(serving);
    assert TickOnce(IDENTITY, svc, serving) == Continue(stale);
    assert TickOnce(IDENTITY, svc, stale) == End(BadSyscall(-1), last, h);
    assert Session(IDENTITY, svc, serving, 2) == Session(IDENTITY, svc, stale, 1);
  }

  /** A program that ends by the unset variable: a NOP in the last word of memory. */
  lemma UnsetOpcodeReached<H>(svc: Services<H>, h: H) returns (start: State, last: State)
    ensures start.core == RESET_CORE.(pc := 0x1000) && Step(IDENTITY, last) == Outcome(ADDRESS, last)
    ensures Session(IDENTITY, svc, Loop(start, h, None, Executing), 2) == End(UnsetOpcode, last, h)
  {
    var mem: Ram := seq(0x401, _ => 0);
    start, last := State(RESET_CORE.(pc := 0x1000), mem), State(RESET_CORE.(pc := 0x1004), mem);
    NopStep(mem);
    UnreadablePcUsesOldOpcode(IDENTITY, svc, Loop(last, h, None, Executing), 1);
  }

  lemma NopStep(mem: Ram)
    requires |mem| == 0x401 && mem[0x400] == 0
    ensures Step(IDENTITY, State(RESET_CORE.(pc := 0x1000), mem)) == Outcome(OK, State(RESET_CORE.(pc := 0x1004), mem))
    ensures PeekUw(IDENTITY, mem, 0x1004) == Throw(ADDRESS)
  {
    assert Op.Decode(0) == Op.SLL && Op.FieldRd(0) == 0;
  }

  /** And indeed the loop never carries another opcode on. */
  lemma {:induction false} CarriedOpcode<H>(c: Codec, svc: Services<H>, l: Loop<H>, n: nat)
    requires l.opcode == None || l.opcode == Some(Op.SYSCALL)
    ensures var t := Session(c, svc, l, n);
            t.Continue? ==> t.loop.opcode == None || t.loop.opcode == Some(Op.SYSCALL)
    decreases n
  {
    hide Step, BreakCode, Resume, PeekUb, PokeUb;
    if n > 0 && TickOnce(c, svc, l).Continue? {
      CarriedOpcode(c, svc, TickOnce(c, svc, l).loop, n - 1);
    }
  }

  // ----- Lock step -----

  ghost predicate RelatedLoops<H>(c: Codec, l: Loop<H>, d: Codec, l': Loop<H>) {
    Related(c, l.m, d, l'.m) && l.h == l'.h && l.opcode == l'.opcode && l.phase == l'.phase
  }

  ghost predicate RelatedTicks<H>(c: Codec, t: Tick<H>, d: Codec, t': Tick<H>) {
    match (t, t')
    case (Continue(l), Continue(l')) => RelatedLoops(c, l, d, l')
    case (End(e, m, h), End(e', m', h')) => e == e' && h == h' && Related(c, m, d, m')
    case _ => false
  }

  lemma ReportsSame(c: Codec, m: State, d: Codec, m': State)
    requires Related(c, m, d, m')
    ensures BreakCode(c, m) == BreakCode(d, m')
    ensures Related(c, Resume(c, m).0, d, Resume(d, m').0)
  {
    hide PeekUw, Op.Decode;
    PeeksSame(c, m.mem, d, m'.mem, m.core.pc);
  }

  lemma ServesSame<H>(c: Codec, svc: Services<H>, l: Loop<H>, d: Codec, l': Loop<H>)
    requires Sound(c) && Sound(d) && RelatedLoops(c, l, d, l')
    ensures RelatedTicks(c, Serve(c, svc, l), d, Serve(d, svc, l'))
  {
    hide PeekUb, PokeUb, Resume, SameGuestWords;
    match svc.next(l.h, l.m.core.g)
    case ReadByte(a) => PeeksSame(c, l.m.mem, d, l'.m.mem, a);
    case WriteByte(a, v) =>
      PokesSame(c, l.m.mem, d, l'.m.mem, a, v);
      assert v % 0x100 == v;
    case Finish(_, g, _) => ReportsSame(c, WithRegisters(l.m, g), d, WithRegisters(l'.m, g));
  }

  lemma TicksSame<H>(c: Codec, svc: Services<H>, l: Loop<H>, d: Codec, l': Loop<H>)
    requires Sound(c) && Sound(d) && RelatedLoops(c, l, d, l')
    ensures RelatedTicks(c, TickOnce(c, svc, l), d, TickOnce(d, svc, l'))
  {
    hide Step, BreakCode, Serve, SameGuestWords;
    if l.phase == Serving {
      ServesSame(c, svc, l, d, l');
    } else {
      StepSame(c, l.m, d, l'.m);
      ReportsSame(c, Step(c, l.m).st, d, Step(d, l'.m).st);
    }
  }

  /** Whole sessions, with traps, services that keep state and access guest memory, and resumptions, stay
      in lock step on related machines. */
  lemma {:induction false} SessionsSame<H>(c: Codec, svc: Services<H>, l: Loop<H>, d: Codec, l': Loop<H>, n: nat)
    requires Sound(c) && Sound(d) && RelatedLoops(c, l, d, l')
    ensures RelatedTicks(c, Session(c, svc, l, n), d, Session(d, svc, l', n))
    decreases n
  {
    hide TickOnce, Related;
    if n > 0 {
      TicksSame(c, svc, l, d, l');
      var t, t' := TickOnce(c, svc, l), TickOnce(d, svc, l');
      if t.Continue? {
        SessionsSame(c, svc, t.loop, d, t'.loop, n - 1);
      }
    }
  }
}
