/** What the host programs do around the interpreter: preparing a CPU and driving a session. */
module Host {
  import opened Bits
  import opened Memory
  import opened Machine
  import opened Elf
  import opened Rc5
  import KeySchedule
  import S = Session
  import L = ElfLoader
  import C = Cpu
  import Op = Opcodes

  /** Installs the hooks first, so that loading already zeroes through them. */
  method PrepareCpu(cpu: C.Cpu, elf: ElfFile, image: seq<Byte>, key: Option<KeySchedule.Key>) returns (status: L.Status)
    requires cpu.Valid()
    modifies cpu, cpu.mem, cpu.r
    ensures cpu.Valid()
    ensures cpu.codec == if key.Some? then Rc5Codec(KeySchedule.Expand(key.value)) else old(cpu.codec)
    ensures match ElfLoad(cpu.codec, old(cpu.Snapshot()), cpu.stksz, elf, image)
            case Started(st, brk) => status == L.DONE && cpu.Snapshot() == st && cpu.brk == brk
            case NotStarted => status == L.FAILED && cpu.CoreState() == old(cpu.CoreState())
            case StartUndefined => status == L.STRAY
  {
    hide ElfLoad;
    if key.Some? {
      var bytes := new Byte[16](i requires 0 <= i < 16 => key.value[i]);
      assert bytes[..] == key.value;
      var s := new Half[26];
      KeySchedule.Setup(bytes, s);
      cpu.codec := Rc5Codec(s[..]);
    }
    status := L.Load(cpu, elf, image);
  }

  /** Executes until the program ends, serving system calls, for at most `n` instructions and service
      actions. `t` is how it ended, or where it stands. */
  method ExecuteLoop<H>(cpu: C.Cpu, svc: S.Services<H>, start: H, n: nat) returns (t: S.Tick<H>)
    requires cpu.Valid()
    modifies cpu.mem, cpu.r, cpu`hi, cpu`lo, cpu`pc, cpu`delaySlot
    ensures cpu.Valid()
    ensures t == S.Session(cpu.codec, svc, S.Loop(old(cpu.Snapshot()), start, None, S.Executing), n)
    ensures cpu.Snapshot() == if t.Continue? then t.loop.m else t.m
  {
    hide Step, BreakCode, Resume, Memory.PeekUb, Memory.PokeUb;
    ghost var all := S.Session(cpu.codec, svc, S.Loop(cpu.Snapshot(), start, None, S.Executing), n);
    var h, opcode, phase := start, None, S.Executing;
    for i := 0 to n
      invariant cpu.Valid()
      invariant all == S.Session(cpu.codec, svc, S.Loop(cpu.Snapshot(), h, opcode, phase), n - i)
    {
      if phase == S.Executing {
        var exn := cpu.Execute();
        if exn != OK {
          var report := cpu.BreakCode();
          if report.opcode.Some? {
            opcode := report.opcode;
          }
          if opcode == None {
            return S.End(S.UnsetOpcode, cpu.Snapshot(), h);
          }
          if opcode.value == Op.BREAK {
            return S.End(S.BreakEnd(report.code), cpu.Snapshot(), h);
          }
          if opcode.value != Op.SYSCALL {
            return S.End(S.Exception(exn), cpu.Snapshot(), h);
          }
          if report.code != S.SPIM_SYSCALL {
            return S.End(S.BadSyscall(report.code), cpu.Snapshot(), h);
          }
          phase := S.Serving;
        }
      } else {
        match svc.next(h, cpu.Regs()) {
          case ReadByte(a) =>
            var v := cpu.PeekUb(a);
            h := svc.reply(h, if v.Value? then S.Byte(v.value) else S.Faulted(v.exn));
          case WriteByte(a, v) =>
            var exn := cpu.PokeUb(a, v);
            h := svc.reply(h, if exn == OK then S.Done else S.Faulted(exn));
          case Finish(code, g, h') =>
            cpu.SetRegs(g);
            h := h';
            if code != 0 {
              return S.End(S.ServiceFault(code), cpu.Snapshot(), h);
            }
            var _ := cpu.Resume();
            phase := S.Executing;
        }
      }
    }
    t := S.Continue(S.Loop(cpu.Snapshot(), h, opcode, phase));
  }
}
