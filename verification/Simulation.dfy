/** Two machines whose memories show the guest the same words run in lock step. */
module Simulation {
  import opened Bits
  import opened Memory
  import opened Machine
  import Op = Opcodes

  /** Equal guest words: each raw word in [LOWBASE, memsz) reads the same through its own hook.
      The words below LOWBASE are not compared. */
  ghost predicate SameGuestWords(c: Codec, mem: Ram, d: Codec, mem': Ram) {
    && |mem| == |mem'|
    && forall k :: LOWBASE_INDEX <= k < |mem| ==> c.dec(4 * k, mem[k]) == d.dec(4 * k, mem'[k])
  }

  ghost predicate Related(c: Codec, m: State, d: Codec, m': State) {
    m.core == m'.core && SameGuestWords(c, m.mem, d, m'.mem)
  }

  ghost predicate RelatedOutcomes(c: Codec, o: Outcome<State>, d: Codec, o': Outcome<State>) {
    o.exn == o'.exn && Related(c, o.st, d, o'.st)
  }

  ghost predicate RelatedRams(c: Codec, r: Res<Ram>, d: Codec, r': Res<Ram>) {
    match (r, r')
    case (Value(mem), Value(mem')) => SameGuestWords(c, mem, d, mem')
    case (Throw(e), Throw(e')) => e == e'
    case _ => false
  }

  // ----- The word hooks -----

  lemma HookPeekSame(c: Codec, mem: Ram, d: Codec, mem': Ram, a: nat)
    requires SameGuestWords(c, mem, d, mem') && HookAddress(mem, a)
    ensures HookPeek(c, mem, a) == HookPeek(d, mem', a)
  {
    assert 4 * (a / 4) == a;
  }

  lemma HookPokeSame(c: Codec, mem: Ram, d: Codec, mem': Ram, a: nat, v: Word)
    requires Sound(c) && Sound(d)
    requires SameGuestWords(c, mem, d, mem') && HookAddress(mem, a)
    ensures SameGuestWords(c, HookPoke(c, mem, a, v), d, HookPoke(d, mem', a, v))
  {
    assert 4 * (a / 4) == a;
  }

  // ----- The checked accesses -----

  lemma PeeksSame(c: Codec, mem: Ram, d: Codec, mem': Ram, a: Word)
    requires SameGuestWords(c, mem, d, mem')
    ensures PeekUb(c, mem, a) == PeekUb(d, mem', a)
    ensures PeekUh(c, mem, a) == PeekUh(d, mem', a)
    ensures PeekUw(c, mem, a) == PeekUw(d, mem', a)
  {
    if ValidAddress(mem, a, 0) {
      HookPeekSame(c, mem, d, mem', a - a % 4);
    }
  }

  lemma PokesSame(c: Codec, mem: Ram, d: Codec, mem': Ram, a: Word, v: Word)
    requires Sound(c) && Sound(d)
    requires SameGuestWords(c, mem, d, mem')
    ensures RelatedRams(c, PokeUb(c, mem, a, v % 0x100), d, PokeUb(d, mem', a, v % 0x100))
    ensures RelatedRams(c, PokeUh(c, mem, a, v % 0x1_0000), d, PokeUh(d, mem', a, v % 0x1_0000))
    ensures RelatedRams(c, PokeUw(c, mem, a, v), d, PokeUw(d, mem', a, v))
  {
    hide Insert;
    if ValidAddress(mem, a, 0) {
      var base := a - a % 4;
      HookPeekSame(c, mem, d, mem', base);
      var w := HookPeek(c, mem, base);
      HookPokeSame(c, mem, d, mem', base, Insert(w, 0xFF, v % 0x100, 8 * (a % 4)));
      HookPokeSame(c, mem, d, mem', base, Insert(w, 0xFFFF, v % 0x1_0000, 8 * (a % 4)));
      HookPokeSame(c, mem, d, mem', base, v);
    }
  }

  lemma UnalignedLoadsSame(c: Codec, mem: Ram, d: Codec, mem': Ram, ea: Word, rt: Word)
    requires SameGuestWords(c, mem, d, mem')
    ensures LoadLeft(c, mem, ea, rt) == LoadLeft(d, mem', ea, rt)
    ensures LoadRight(c, mem, ea, rt) == LoadRight(d, mem', ea, rt)
  {
    hide PeekUw, MergeLeft, MergeRight, SameGuestWords;
    PeeksSame(c, mem, d, mem', ea - ea % 4);
  }

  lemma UnalignedStoresSame(c: Codec, mem: Ram, d: Codec, mem': Ram, ea: Word, rt: Word)
    requires Sound(c) && Sound(d)
    requires SameGuestWords(c, mem, d, mem')
    ensures RelatedRams(c, StoreLeft(c, mem, ea, rt), d, StoreLeft(d, mem', ea, rt))
    ensures RelatedRams(c, StoreRight(c, mem, ea, rt), d, StoreRight(d, mem', ea, rt))
  {
    hide PeekUw, PokeUw, SpillLeft, SpillRight, SameGuestWords;
    var base, s := ea - ea % 4, ea % 4;
    PeeksSame(c, mem, d, mem', base);
    var w := match PeekUw(c, mem, base) case Value(x) => x case Throw(_) => 0;
    PokesSame(c, mem, d, mem', base, SpillLeft(w, rt, s));
    PokesSame(c, mem, d, mem', base, SpillRight(w, rt, s));
    PokesSame(c, mem, d, mem', base, SpillLeft(0, rt, s));
    PokesSame(c, mem, d, mem', base, SpillRight(0, rt, s));
  }

  // ----- Instructions and steps -----

  lemma StoreToSame(c: Codec, m: State, r: Res<Ram>, d: Codec, m': State, r': Res<Ram>)
    requires Related(c, m, d, m') && RelatedRams(c, r, d, r')
    ensures RelatedOutcomes(c, StoreTo(m, r), d, StoreTo(m', r'))
  {
  }

  lemma StoresSame(c: Codec, m: State, d: Codec, m': State, insn: Word, op: int)
    requires Sound(c) && Sound(d) && Related(c, m, d, m') && IsStore(op)
    ensures RelatedOutcomes(c, DoLoadStore(c, insn, op, m), d, DoLoadStore(d, insn, op, m'))
  {
    hide PokeUb, PokeUh, PokeUw, StoreLeft, StoreRight, RelatedRams, StoreTo, EffectiveAddress, Rt;
    var ea, rt := EffectiveAddress(insn, m.core.g.r), Rt(insn, m.core.g.r);
    PokesSame(c, m.mem, d, m'.mem, ea, rt);
    UnalignedStoresSame(c, m.mem, d, m'.mem, ea, rt);
    StoreToSame(c, m, PokeUb(c, m.mem, ea, rt % 0x100), d, m', PokeUb(d, m'.mem, ea, rt % 0x100));
    StoreToSame(c, m, PokeUh(c, m.mem, ea, rt % 0x1_0000), d, m', PokeUh(d, m'.mem, ea, rt % 0x1_0000));
    StoreToSame(c, m, PokeUw(c, m.mem, ea, rt), d, m', PokeUw(d, m'.mem, ea, rt));
    StoreToSame(c, m, StoreLeft(c, m.mem, ea, rt), d, m', StoreLeft(d, m'.mem, ea, rt));
    StoreToSame(c, m, StoreRight(c, m.mem, ea, rt), d, m', StoreRight(d, m'.mem, ea, rt));
  }

  lemma LoadsSame(c: Codec, m: State, d: Codec, m': State, insn: Word, op: int)
    requires Related(c, m, d, m') && !IsStore(op)
    requires Sound(c) && Sound(d)
    ensures RelatedOutcomes(c, DoLoadStore(c, insn, op, m), d, DoLoadStore(d, insn, op, m'))
  {
    hide PeekUb, PeekUh, PeekUw, LoadLeft, LoadRight, SameGuestWords, EffectiveAddress, Rt, PutRes, Shl,
         Op.FieldRs, Op.FieldRt, ZImm, ToWord, SignedByte, SignedHalf;
    var ea, rt := EffectiveAddress(insn, m.core.g.r), Rt(insn, m.core.g.r);
    PeeksSame(c, m.mem, d, m'.mem, ea);
    UnalignedLoadsSame(c, m.mem, d, m'.mem, ea, rt);
  }

  lemma DispatchSame(c: Codec, m: State, d: Codec, m': State, insn: Word, op: int)
    requires Sound(c) && Sound(d) && Related(c, m, d, m')
    ensures RelatedOutcomes(c, Dispatch(c, insn, op, m), d, Dispatch(d, insn, op, m'))
  {
    hide DoLoadStore, DoJump, DoBranch, DoAlui, DoAlu3, DoDivMult;
    if IsStore(op) {
      StoresSame(c, m, d, m', insn, op);
    } else {
      LoadsSame(c, m, d, m', insn, op);
    }
  }

  /** Lock step: related machines end a step the same way and stay related. */
  lemma StepSame(c: Codec, m: State, d: Codec, m': State)
    requires Sound(c) && Sound(d) && Related(c, m, d, m')
    ensures RelatedOutcomes(c, Step(c, m), d, Step(d, m'))
  {
    hide PeekUw, Dispatch, SameGuestWords;
    PeeksSame(c, m.mem, d, m'.mem, FetchAddress(m.core));
    match Fetch(c, m)
    case Throw(_) =>
    case Value(insn) => DispatchSame(c, m, d, m', insn, Op.Decode(insn));
  }

  /** For every sound pair of codecs, related machines stay related through runs of any length. */
  lemma {:induction false} LockStep(c: Codec, m: State, d: Codec, m': State, n: nat)
    requires Sound(c) && Sound(d) && Related(c, m, d, m')
    ensures RelatedOutcomes(c, Run(c, m, n), d, Run(d, m', n))
    decreases n
  {
    hide Step;
    if n > 0 {
      StepSame(c, m, d, m');
      if Step(c, m).exn == OK {
        LockStep(c, Step(c, m).st, d, Step(d, m').st, n - 1);
      }
    }
  }

  /** Guest execution never reads the control block: whatever is stored below LOWBASE, a run ends the
      same way with the same registers and the same guest words. */
  lemma ControlBlockUnread(c: Codec, m: State, mem': Ram, n: nat)
    requires Sound(c) && |mem'| == |m.mem|
    requires forall k :: LOWBASE_INDEX <= k < |m.mem| ==> mem'[k] == m.mem[k]
    ensures RelatedOutcomes(c, Run(c, m, n), c, Run(c, m.(mem := mem'), n))
  {
    LockStep(c, m, c, m.(mem := mem'), n);
  }
}
