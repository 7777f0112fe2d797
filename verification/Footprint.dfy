/** Runs that read only bytes they, or the loader, have written: what memory held before cannot matter. */
module Footprint {
  import opened Bits
  import opened Memory
  import opened Machine
  import opened Unaligned
  import Op = Opcodes
  import S = Session

  // ----- Bytes an instruction touches -----

  predicate Between(lo: nat, b: nat, hi: nat) {
    lo <= b < hi
  }

  function Bytes(lo: nat, hi: nat): set<nat> {
    set b: nat | lo <= b < hi && Between(lo, b, hi)
  }

  /** The guest bytes a load or store at `ea` names: its width from `ea` on, or the part of the word around
      `ea` that the unaligned instructions move; none for LUI, and none for an access that faults. */
  function Named(mem: Ram, op: int, ea: Word): set<nat> {
    if op == Op.LUI || !GuestByte(mem, ea) then {}
    else if op == Op.LB || op == Op.LBU || op == Op.SB then Bytes(ea, ea + 1)
    else if op == Op.LH || op == Op.LHU || op == Op.SH then if ea % 2 == 0 then Bytes(ea, ea + 2) else {}
    else if op == Op.LW || op == Op.SW then if ea % 4 == 0 then Bytes(ea, ea + 4) else {}
    else if op == Op.LWL || op == Op.SWL then Bytes(ea - ea % 4, ea + 1)
    else Bytes(ea, ea - ea % 4 + 4)
  }

  /** The bytes an instruction reads: those a load names, unless it loads register 0. */
  function ReadBy(mem: Ram, insn: Word, op: int, r: RegFile): set<nat> {
    if !IsLoadStore(op) || IsStore(op) || Op.FieldRt(insn) == 0 then {}
    else Named(mem, op, EffectiveAddress(insn, r))
  }

  function WrittenBy(mem: Ram, insn: Word, op: int, r: RegFile): set<nat> {
    if IsStore(op) then Named(mem, op, EffectiveAddress(insn, r)) else {}
  }

  /** Byte `b` is named by an access at `ea`, in numbers; none is by LUI, 0x0F, or by an access that faults. */
  lemma NamedIff(mem: Ram, op: int, ea: Word, b: nat)
    requires IsLoadStore(op)
    ensures b in Named(mem, op, ea) <==>
            && 0x1000 <= ea < 4 * |mem|
            && match op
               case 0x20 => b == ea
               case 0x24 => b == ea
               case 0x28 => b == ea
               case 0x21 => ea % 2 == 0 && ea <= b < ea + 2
               case 0x25 => ea % 2 == 0 && ea <= b < ea + 2
               case 0x29 => ea % 2 == 0 && ea <= b < ea + 2
               case 0x23 => ea % 4 == 0 && ea <= b < ea + 4
               case 0x2B => ea % 4 == 0 && ea <= b < ea + 4
               case 0x22 => b <= ea && b / 4 == ea / 4
               case 0x2A => b <= ea && b / 4 == ea / 4
               case 0x26 => ea <= b && b / 4 == ea / 4
               case 0x2E => ea <= b && b / 4 == ea / 4
               case _ => false
  {
  }

  // ----- Memories that agree on some bytes -----

  ghost predicate SameOn(c: Codec, mem: Ram, d: Codec, mem': Ram, known: set<nat>) {
    && |mem| == |mem'|
    && forall b: nat {:trigger b in known} :: b in known && GuestByte(mem, b) ==> ByteAt(c, mem, b) == ByteAt(d, mem', b)
  }

  ghost predicate SameStateOn(c: Codec, m: State, d: Codec, m': State, known: set<nat>) {
    m.core == m'.core && SameOn(c, m.mem, d, m'.mem, known)
  }

  lemma ByteSame(c: Codec, mem: Ram, d: Codec, mem': Ram, known: set<nat>, b: nat)
    requires SameOn(c, mem, d, mem', known) && b in known && GuestByte(mem, b)
    ensures GuestByte(mem', b) && ByteAt(c, mem, b) == ByteAt(d, mem', b)
  {
  }

  lemma InBytes(lo: nat, hi: nat, b: nat)
    ensures b in Bytes(lo, hi) <==> lo <= b < hi
  {
  }

  lemma WordSame(c: Codec, mem: Ram, d: Codec, mem': Ram, known: set<nat>, a: Word)
    requires SameOn(c, mem, d, mem', known) && (ValidAddress(mem, a, 3) ==> Bytes(a, a + 4) <= known)
    ensures PeekUw(c, mem, a) == PeekUw(d, mem', a)
  {
    hide ByteAt, PeekUw, SameOn, Bytes, Join;
    SameSize(c, mem, d, mem', known);
    PeekUwReadsBytes(c, mem, a);
    PeekUwReadsBytes(d, mem', a);
    if ValidAddress(mem, a, 3) {
      InBytes(a, a + 4, a);
      InBytes(a, a + 4, a + 1);
      InBytes(a, a + 4, a + 2);
      InBytes(a, a + 4, a + 3);
      ByteSame(c, mem, d, mem', known, a);
      ByteSame(c, mem, d, mem', known, a + 1);
      ByteSame(c, mem, d, mem', known, a + 2);
      ByteSame(c, mem, d, mem', known, a + 3);
    }
  }

  lemma SameSize(c: Codec, mem: Ram, d: Codec, mem': Ram, known: set<nat>)
    requires SameOn(c, mem, d, mem', known)
    ensures |mem| == |mem'|
  {
  }

  lemma HalfSame(c: Codec, mem: Ram, d: Codec, mem': Ram, known: set<nat>, a: Word)
    requires SameOn(c, mem, d, mem', known) && Named(mem, Op.LHU, a) <= known
    ensures PeekUh(c, mem, a) == PeekUh(d, mem', a)
  {
    hide ByteAt, PeekUh, SameOn;
    SameSize(c, mem, d, mem', known);
    PeekUhReadsBytes(c, mem, a);
    PeekUhReadsBytes(d, mem', a);
    if GuestByte(mem, a) && a % 2 == 0 {
      assert a in Bytes(a, a + 2) && a + 1 in Bytes(a, a + 2);
      if GuestByte(mem, a + 1) {
        ByteSame(c, mem, d, mem', known, a);
        ByteSame(c, mem, d, mem', known, a + 1);
      }
    }
  }

  lemma SingleSame(c: Codec, mem: Ram, d: Codec, mem': Ram, known: set<nat>, a: Word)
    requires SameOn(c, mem, d, mem', known) && Named(mem, Op.LBU, a) <= known
    ensures PeekUb(c, mem, a) == PeekUb(d, mem', a)
  {
    hide ByteAt, PeekUb, SameOn;
    SameSize(c, mem, d, mem', known);
    PeekUbReadsByte(c, mem, a);
    PeekUbReadsByte(d, mem', a);
    if GuestByte(mem, a) {
      assert a in Bytes(a, a + 1);
      ByteSame(c, mem, d, mem', known, a);
    }
  }

  /** Words read through two hooks agree on a known byte. */
  lemma HookByteSame(c: Codec, mem: Ram, d: Codec, mem': Ram, known: set<nat>, base: nat, k: nat)
    requires SameOn(c, mem, d, mem', known) && HookAddress(mem, base) && k < 4 && base + k in known
    ensures HookAddress(mem', base)
    ensures ByteOf(HookPeek(c, mem, base), k) == ByteOf(HookPeek(d, mem', base), k)
  {
    hide HookPeek, ByteOf, SameOn;
    SameSize(c, mem, d, mem', known);
    ByteInWord(c, mem, base, k);
    ByteInWord(d, mem', base, k);
    ByteSame(c, mem, d, mem', known, base + k);
  }

  lemma LoadLeftSame(c: Codec, mem: Ram, d: Codec, mem': Ram, known: set<nat>, ea: Word, rt: Word)
    requires SameOn(c, mem, d, mem', known) && Named(mem, Op.LWL, ea) <= known
    ensures LoadLeft(c, mem, ea, rt) == LoadLeft(d, mem', ea, rt)
  {
    hide HookPeek, ByteOf, MergeLeft, SameOn;
    SameSize(c, mem, d, mem', known);
    if GuestByte(mem, ea) {
      var base, s := ea - ea % 4, ea % 4;
      var w, w' := HookPeek(c, mem, base), HookPeek(d, mem', base);
      forall k: nat | k < 4
        ensures ByteOf(MergeLeft(w, rt, s), k) == ByteOf(MergeLeft(w', rt, s), k)
      {
        MergeLeftBytes(w, rt, s, k);
        MergeLeftBytes(w', rt, s, k);
        if k >= 3 - s {
          assert base + (k - (3 - s)) in Bytes(base, ea + 1);
          HookByteSame(c, mem, d, mem', known, base, k - (3 - s));
        }
      }
      SameBytes(MergeLeft(w, rt, s), MergeLeft(w', rt, s));
    }
  }

  lemma LoadRightSame(c: Codec, mem: Ram, d: Codec, mem': Ram, known: set<nat>, ea: Word, rt: Word)
    requires SameOn(c, mem, d, mem', known) && Named(mem, Op.LWR, ea) <= known
    ensures LoadRight(c, mem, ea, rt) == LoadRight(d, mem', ea, rt)
  {
    hide HookPeek, ByteOf, MergeRight, SameOn;
    SameSize(c, mem, d, mem', known);
    if GuestByte(mem, ea) {
      var base, s := ea - ea % 4, ea % 4;
      var w, w' := HookPeek(c, mem, base), HookPeek(d, mem', base);
      forall k: nat | k < 4
        ensures ByteOf(MergeRight(w, rt, s), k) == ByteOf(MergeRight(w', rt, s), k)
      {
        MergeRightBytes(w, rt, s, k);
        MergeRightBytes(w', rt, s, k);
        if k < 4 - s {
          assert base + (k + s) in Bytes(ea, base + 4);
          HookByteSame(c, mem, d, mem', known, base, k + s);
        }
      }
      SameBytes(MergeRight(w, rt, s), MergeRight(w', rt, s));
    }
  }

  // ----- Instructions -----

  /** A load that reads known bytes only delivers the same under both hooks. */
  lemma LoadsSame(c: Codec, m: State, d: Codec, m': State, known: set<nat>, insn: Word, op: int)
    requires SameStateOn(c, m, d, m', known) && IsLoadStore(op) && !IsStore(op)
    requires ReadBy(m.mem, insn, op, m.core.g.r) <= known
    ensures var o, o' := DoLoadStore(c, insn, op, m), DoLoadStore(d, insn, op, m');
            o.exn == o'.exn && o.st == m.(core := o.st.core) && o'.st == m'.(core := o.st.core)
  {
    hide PeekUb, PeekUh, PeekUw, LoadLeft, LoadRight, SameOn, EffectiveAddress, ToWord, SignedByte, SignedHalf, Bytes,
         Shl, ZImm;
    var ea, rt := EffectiveAddress(insn, m.core.g.r), Rt(insn, m.core.g.r);
    SameSize(c, m.mem, d, m'.mem, known);
    FaultsSame(c, m.mem, d, m'.mem, ea, rt);
    if Op.FieldRt(insn) != 0 {
      if op == Op.LB || op == Op.LBU {
        SingleSame(c, m.mem, d, m'.mem, known, ea);
      } else if op == Op.LH || op == Op.LHU {
        HalfSame(c, m.mem, d, m'.mem, known, ea);
      } else if op == Op.LW {
        WordSame(c, m.mem, d, m'.mem, known, ea);
      } else if op == Op.LWL {
        LoadLeftSame(c, m.mem, d, m'.mem, known, ea, rt);
      } else if op == Op.LWR {
        LoadRightSame(c, m.mem, d, m'.mem, known, ea, rt);
      }
    }
  }

  /** Whether an access faults depends on its address only. */
  lemma FaultsSame(c: Codec, mem: Ram, d: Codec, mem': Ram, ea: Word, rt: Word)
    requires |mem| == |mem'|
    ensures LoadLeft(c, mem, ea, rt).Throw? == LoadLeft(d, mem', ea, rt).Throw?
    ensures LoadRight(c, mem, ea, rt).Throw? == LoadRight(d, mem', ea, rt).Throw?
    ensures LoadLeft(c, mem, ea, rt).Throw? ==> LoadLeft(c, mem, ea, rt).exn == ADDRESS == LoadLeft(d, mem', ea, rt).exn
    ensures LoadRight(c, mem, ea, rt).Throw? ==> LoadRight(c, mem, ea, rt).exn == ADDRESS == LoadRight(d, mem', ea, rt).exn
  {
    hide HookPeek, MergeLeft, MergeRight;
  }

  /** Two writes of the same bytes make them known. */
  lemma WrittenSame(c: Codec, mem: Ram, after: Ram, d: Codec, mem': Ram, after': Ram, known: set<nat>,
                    a: Word, n: nat, v: Word)
    requires n <= 4 && SameOn(c, mem, d, mem', known)
    requires BytesWritten(c, mem, after, a, n, v) && BytesWritten(d, mem', after', a, n, v)
    ensures SameOn(c, after, d, after', known + Bytes(a, a + n))
  {
    hide ByteAt, ByteOf;
    forall b: nat {:trigger b in known} | b in known + Bytes(a, a + n) && GuestByte(after, b)
      ensures ByteAt(c, after, b) == ByteAt(d, after', b)
    {
      assert GuestByte(mem, b) && GuestByte(mem', b);
      if !(a <= b < a + n) {
        assert b in known;
      }
    }
  }

  /** The bytes a store puts at its address, as BytesWritten states them. */
  lemma StoreEffect(c: Codec, m: State, insn: Word, op: int)
    requires Sound(c) && IsStore(op)
    ensures var o, ea, rt := DoLoadStore(c, insn, op, m), EffectiveAddress(insn, m.core.g.r), Rt(insn, m.core.g.r);
            if Named(m.mem, op, ea) == {} then o == Outcome(ADDRESS, m)
            else
              var (a, n, v) := StoredAt(op, ea, rt);
              && o.exn == OK && o.st.core == m.core && BytesWritten(c, m.mem, o.st.mem, a, n, v)
              && Named(m.mem, op, ea) == Bytes(a, a + n)
  {
    hide PokeUb, PokeUh, PokeUw, StoreLeft, StoreRight, EffectiveAddress, BytesWritten, Bytes, Shr;
    var ea, rt := EffectiveAddress(insn, m.core.g.r), Rt(insn, m.core.g.r);
    BytesNonEmpty(m.mem, op, ea);
    PokeUbWritesByte(c, m.mem, ea, rt % 0x100);
    PokeUhWritesBytes(c, m.mem, ea, rt % 0x1_0000);
    PokeUwWritesBytes(c, m.mem, ea, rt);
    if GuestByte(m.mem, ea) {
      StoreLeftBytes(c, m.mem, ea, rt);
      StoreRightBytes(c, m.mem, ea, rt);
    } else {
      StoresFault(c, m.mem, ea, rt);
    }
  }

  /** Where a store that does not fault writes, how many bytes, and the number whose bytes they are. */
  function StoredAt(op: int, ea: Word, rt: Word): (w: (Word, nat, Word))
    ensures w.1 <= 4
  {
    if op == Op.SB then (ea, 1, rt % 0x100)
    else if op == Op.SH then (ea, 2, rt % 0x1_0000)
    else if op == Op.SW then (ea, 4, rt)
    else if op == Op.SWL then (ea - ea % 4, ea % 4 + 1, Shr(rt, 8 * (3 - ea % 4)))
    else (ea, 4 - ea % 4, rt)
  }

  lemma BytesNonEmpty(mem: Ram, op: int, ea: Word)
    requires IsStore(op)
    ensures Named(mem, op, ea) == {} <==>
            !GuestByte(mem, ea) || (op == Op.SH && ea % 2 != 0) || (op == Op.SW && ea % 4 != 0)
  {
    assert GuestByte(mem, ea) ==> ea in Bytes(ea, ea + 1) && ea in Bytes(ea, ea + 2) && ea in Bytes(ea, ea + 4);
    assert ea in Bytes(ea - ea % 4, ea + 1) && ea in Bytes(ea, ea - ea % 4 + 4);
  }

  lemma StoresFault(c: Codec, mem: Ram, ea: Word, rt: Word)
    requires !GuestByte(mem, ea)
    ensures StoreLeft(c, mem, ea, rt) == Throw(ADDRESS) && StoreRight(c, mem, ea, rt) == Throw(ADDRESS)
  {
    hide HookPeek, HookPoke, SpillLeft, SpillRight;
    assert !ValidAddress(mem, ea - ea % 4, 3);
  }

  lemma StoresSame(c: Codec, m: State, d: Codec, m': State, known: set<nat>, insn: Word, op: int)
    requires Sound(c) && Sound(d) && SameStateOn(c, m, d, m', known) && IsStore(op)
    ensures var o, o' := DoLoadStore(c, insn, op, m), DoLoadStore(d, insn, op, m');
            o.exn == o'.exn && SameStateOn(c, o.st, d, o'.st, known + WrittenBy(m.mem, insn, op, m.core.g.r))
  {
    hide DoLoadStore, EffectiveAddress, SameOn, BytesWritten, Bytes, StoredAt;
    var ea, rt := EffectiveAddress(insn, m.core.g.r), Rt(insn, m.core.g.r);
    SameSize(c, m.mem, d, m'.mem, known);
    StoreEffect(c, m, insn, op);
    StoreEffect(d, m', insn, op);
    if Named(m.mem, op, ea) == {} {
      assert known + {} == known;
    } else {
      var (a, n, v) := StoredAt(op, ea, rt);
      WrittenSame(c, m.mem, DoLoadStore(c, insn, op, m).st.mem, d, m'.mem, DoLoadStore(d, insn, op, m').st.mem,
                  known, a, n, v);
    }
  }

  lemma DispatchSame(c: Codec, m: State, d: Codec, m': State, known: set<nat>, insn: Word, op: int)
    requires Sound(c) && Sound(d) && SameStateOn(c, m, d, m', known)
    requires ReadBy(m.mem, insn, op, m.core.g.r) <= known
    ensures var o, o' := Dispatch(c, insn, op, m), Dispatch(d, insn, op, m');
            o.exn == o'.exn && SameStateOn(c, o.st, d, o'.st, known + WrittenBy(m.mem, insn, op, m.core.g.r))
  {
    hide DoLoadStore, DoJump, DoBranch, DoAlui, DoAlu3, DoDivMult, SameOn, ReadBy, Named;
    if IsStore(op) {
      StoresSame(c, m, d, m', known, insn, op);
    } else {
      assert known + {} == known;
      if IsLoadStore(op) {
        LoadsSame(c, m, d, m', known, insn, op);
      }
    }
  }

  // ----- Runs -----

  /** The bytes the next step fetches, and those its instruction reads. */
  ghost function StepReads(c: Codec, m: State): set<nat> {
    var a := FetchAddress(m.core);
    if !ValidAddress(m.mem, a, 3) then {}
    else
      var insn := Fetch(c, m).value;
      Bytes(a, a + 4) + ReadBy(m.mem, insn, Op.Decode(insn), m.core.g.r)
  }

  /** The bytes it writes, if it succeeds. */
  ghost function StepWrites(c: Codec, m: State): set<nat> {
    match Fetch(c, m)
    case Throw(_) => {}
    case Value(insn) => if Step(c, m).exn == OK then WrittenBy(m.mem, insn, Op.Decode(insn), m.core.g.r) else {}
  }

  /** A run of `n` steps reads known bytes only: those known at the start and those it has written. */
  ghost predicate CleanRun(c: Codec, m: State, known: set<nat>, n: nat)
    decreases n
  {
    n > 0 ==>
      && StepReads(c, m) <= known
      && (Step(c, m).exn == OK ==> CleanRun(c, Step(c, m).st, known + StepWrites(c, m), n - 1))
  }

  /** What is known after it. */
  ghost function KnownAfter(c: Codec, m: State, known: set<nat>, n: nat): set<nat>
    decreases n
  {
    if n == 0 || Step(c, m).exn != OK then known
    else KnownAfter(c, Step(c, m).st, known + StepWrites(c, m), n - 1)
  }

  lemma FewerKnown(c: Codec, m: State, d: Codec, m': State, known: set<nat>, more: set<nat>)
    requires SameStateOn(c, m, d, m', known + more)
    ensures SameStateOn(c, m, d, m', known) && SameStateOn(c, m, d, m', known + {})
  {
    hide ByteAt;
    assert known + {} == known;
  }

  lemma StepSame(c: Codec, m: State, d: Codec, m': State, known: set<nat>)
    requires Sound(c) && Sound(d) && SameStateOn(c, m, d, m', known) && StepReads(c, m) <= known
    ensures Step(c, m).exn == Step(d, m').exn
    ensures SameStateOn(c, Step(c, m).st, d, Step(d, m').st, known + StepWrites(c, m))
    ensures SameStateOn(c, Step(c, m).st, d, Step(d, m').st, known)
  {
    hide PeekUw, Dispatch, SameOn, ReadBy, WrittenBy, Bytes, Op.Decode;
    FetchFaults(c, m);
    WordSame(c, m.mem, d, m'.mem, known, FetchAddress(m.core));
    FewerKnown(c, m, d, m', known, {}) by {
      assert known + {} == known;
    }
    match Fetch(c, m)
    case Throw(_) =>
    case Value(insn) =>
      var op := Op.Decode(insn);
      DispatchSame(c, m, d, m', known, insn, op);
      FewerKnown(c, Dispatch(c, insn, op, m).st, d, Dispatch(d, insn, op, m').st, known,
                 WrittenBy(m.mem, insn, op, m.core.g.r));
  }

  lemma FetchFaults(c: Codec, m: State)
    ensures Fetch(c, m).Value? <==> ValidAddress(m.mem, FetchAddress(m.core), 3)
  {
  }

  /** A clean run ends the same way, in the same registers and with the same known bytes, from every
      memory that agrees on the bytes known at the start, through any two sound hooks. */
  lemma {:induction false} CleanRunsSame(c: Codec, m: State, d: Codec, m': State, known: set<nat>, n: nat)
    requires Sound(c) && Sound(d) && SameStateOn(c, m, d, m', known) && CleanRun(c, m, known, n)
    ensures Run(c, m, n).exn == Run(d, m', n).exn
    ensures SameStateOn(c, Run(c, m, n).st, d, Run(d, m', n).st, KnownAfter(c, m, known, n))
    decreases n
  {
    hide Step, SameStateOn, StepReads, StepWrites;
    if n > 0 {
      StepSame(c, m, d, m', known);
      if Step(c, m).exn == OK {
        CleanRunsSame(c, Step(c, m).st, d, Step(d, m').st, known + StepWrites(c, m), n - 1);
      }
    }
  }

  // ----- Sessions -----

  /** The bytes read at PC by a trap report or a resumption. */
  function PcBytes(m: State): set<nat> {
    if ValidAddress(m.mem, m.core.pc, 3) then Bytes(m.core.pc, m.core.pc + 4) else {}
  }

  /** The bytes a tick of the execution loop reads: those of a step, with the word at PC if it fails, or the
      one a service asks for, or the word at PC when the service has finished. */
  ghost function TickReads<H>(c: Codec, svc: S.Services<H>, l: S.Loop<H>): set<nat> {
    if l.phase == S.Executing then
      StepReads(c, l.m) + if Step(c, l.m).exn == OK then {} else PcBytes(Step(c, l.m).st)
    else match svc.next(l.h, l.m.core.g)
      case ReadByte(a) => Named(l.m.mem, Op.LBU, a)
      case WriteByte(_, _) => {}
      case Finish(_, _, _) => PcBytes(l.m)
  }

  ghost function TickWrites<H>(c: Codec, svc: S.Services<H>, l: S.Loop<H>): set<nat> {
    if l.phase == S.Executing then StepWrites(c, l.m)
    else match svc.next(l.h, l.m.core.g)
      case WriteByte(a, _) => Named(l.m.mem, Op.SB, a)
      case _ => {}
  }

  /** A session of `n` ticks in which program, services and host read known bytes only. */
  ghost predicate CleanSession<H>(c: Codec, svc: S.Services<H>, l: S.Loop<H>, known: set<nat>, n: nat)
    decreases n
  {
    n > 0 ==>
      && TickReads(c, svc, l) <= known
      && match S.TickOnce(c, svc, l)
         case Continue(next) => CleanSession(c, svc, next, known + TickWrites(c, svc, l), n - 1)
         case End(_, _, _) => true
  }

  ghost function KnownAfterSession<H>(c: Codec, svc: S.Services<H>, l: S.Loop<H>, known: set<nat>, n: nat): set<nat>
    decreases n
  {
    if n == 0 then known
    else match S.TickOnce(c, svc, l)
      case Continue(next) => KnownAfterSession(c, svc, next, known + TickWrites(c, svc, l), n - 1)
      case End(_, _, _) => known + TickWrites(c, svc, l)
  }

  ghost predicate SameLoopOn<H>(c: Codec, l: S.Loop<H>, d: Codec, l': S.Loop<H>, known: set<nat>) {
    SameStateOn(c, l.m, d, l'.m, known) && l.h == l'.h && l.opcode == l'.opcode && l.phase == l'.phase
  }

  ghost predicate SameTickOn<H>(c: Codec, t: S.Tick<H>, d: Codec, t': S.Tick<H>, known: set<nat>) {
    match (t, t')
    case (Continue(l), Continue(l')) => SameLoopOn(c, l, d, l', known)
    case (End(e, m, h), End(e', m', h')) => e == e' && h == h' && SameStateOn(c, m, d, m', known)
    case _ => false
  }

  lemma ReportsSame(c: Codec, m: State, d: Codec, m': State, known: set<nat>)
    requires SameStateOn(c, m, d, m', known) && PcBytes(m) <= known
    ensures BreakCode(c, m) == BreakCode(d, m')
    ensures SameStateOn(c, Resume(c, m).0, d, Resume(d, m').0, known)
  {
    hide PeekUw, Op.Decode, SameOn, Bytes, TrapIn;
    WordSame(c, m.mem, d, m'.mem, known, m.core.pc);
  }

  lemma ServesSame<H>(c: Codec, svc: S.Services<H>, l: S.Loop<H>, d: Codec, l': S.Loop<H>, known: set<nat>)
    requires Sound(c) && Sound(d) && SameLoopOn(c, l, d, l', known) && l.phase == S.Serving
    requires TickReads(c, svc, l) <= known
    ensures SameTickOn(c, S.Serve(c, svc, l), d, S.Serve(d, svc, l'), known + TickWrites(c, svc, l))
  {
    hide PeekUb, PokeUb, Resume, SameOn, Named, PcBytes, StepReads, StepWrites;
    assert known + {} == known;
    match svc.next(l.h, l.m.core.g)
    case ReadByte(a) => SingleSame(c, l.m.mem, d, l'.m.mem, known, a);
    case WriteByte(a, v) => WriteSame(c, l.m.mem, d, l'.m.mem, known, a, v);
    case Finish(_, g, _) => ReportsSame(c, S.WithRegisters(l.m, g), d, S.WithRegisters(l'.m, g), known) by {
      PcBytesKept(l.m, g);
    }
  }

  lemma PcBytesKept(m: State, g: Gprs)
    ensures PcBytes(S.WithRegisters(m, g)) == PcBytes(m)
  {
  }

  lemma WriteSame(c: Codec, mem: Ram, d: Codec, mem': Ram, known: set<nat>, a: Word, v: Byte)
    requires Sound(c) && Sound(d) && SameOn(c, mem, d, mem', known)
    ensures match (PokeUb(c, mem, a, v), PokeUb(d, mem', a, v))
            case (Value(after), Value(after')) => SameOn(c, after, d, after', known + Named(mem, Op.SB, a))
            case (Throw(e), Throw(e')) => e == e' && SameOn(c, mem, d, mem', known + Named(mem, Op.SB, a))
            case _ => false
  {
    hide PokeUb, SameOn, BytesWritten, Bytes;
    SameSize(c, mem, d, mem', known);
    PokeUbWritesByte(c, mem, a, v);
    PokeUbWritesByte(d, mem', a, v);
    if ValidAddress(mem, a, 0) {
      WrittenSame(c, mem, PokeUb(c, mem, a, v).value, d, mem', PokeUb(d, mem', a, v).value, known, a, 1, v);
    } else {
      assert known + {} == known;
    }
  }

  lemma TicksSame<H>(c: Codec, svc: S.Services<H>, l: S.Loop<H>, d: Codec, l': S.Loop<H>, known: set<nat>)
    requires Sound(c) && Sound(d) && SameLoopOn(c, l, d, l', known) && TickReads(c, svc, l) <= known
    ensures SameTickOn(c, S.TickOnce(c, svc, l), d, S.TickOnce(d, svc, l'), known + TickWrites(c, svc, l))
  {
    hide Step, BreakCode, S.Serve, SameOn, StepReads, StepWrites, PcBytes, Named;
    if l.phase == S.Serving {
      ServesSame(c, svc, l, d, l', known);
    } else {
      StepSame(c, l.m, d, l'.m, known);
      if Step(c, l.m).exn != OK {
        ReportsSame(c, Step(c, l.m).st, d, Step(d, l'.m).st, known);
      }
    }
  }

  /** Clean sessions, too, are the same on every memory that agrees on the bytes known at the start. */
  lemma {:induction false} CleanSessionsSame<H>(c: Codec, svc: S.Services<H>, l: S.Loop<H>, d: Codec, l': S.Loop<H>,
                                                 known: set<nat>, n: nat)
    requires Sound(c) && Sound(d) && SameLoopOn(c, l, d, l', known) && CleanSession(c, svc, l, known, n)
    ensures SameTickOn(c, S.Session(c, svc, l, n), d, S.Session(d, svc, l', n), KnownAfterSession(c, svc, l, known, n))
    decreases n
  {
    hide S.TickOnce, SameStateOn, TickReads, TickWrites;
    if n > 0 {
      TicksSame(c, svc, l, d, l', known);
      var t, t' := S.TickOnce(c, svc, l), S.TickOnce(d, svc, l');
      if t.Continue? {
        CleanSessionsSame(c, svc, t.loop, d, t'.loop, known + TickWrites(c, svc, l), n - 1);
      }
    }
  }
}
