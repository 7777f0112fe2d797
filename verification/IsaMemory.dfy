/** Loads and stores in numbers: what a step does on each instruction word, byte by byte. */
module IsaMemory {
  import opened Bits
  import opened Memory
  import opened Machine
  import opened Isa
  import Op = Opcodes
  import U = Unaligned

  /** The address of an access: register plus sign-extended offset, modulo 2^32. */
  function Address(m: State, rs: nat, offset: int): Word
    requires rs < 32
  {
    (Reg(m, rs) + offset) % 0x1_0000_0000
  }

  /** The bytes a..a+n are in [0x1000, memsz), and `a` is a multiple of `n`. */
  predicate Reachable(mem: Ram, a: Word, n: nat)
    requires n > 0
  {
    0x1000 <= a && a + n <= 4 * |mem| && a % n == 0
  }

  /** Byte `k` of a number, the lowest first. */
  function ByteDigit(v: nat, k: nat): nat {
    if k == 0 then v % 0x100 else ByteDigit(v / 0x100, k - 1)
  }

  lemma ByteDigitIs(v: Word, k: nat)
    requires k < 4
    ensures ByteDigit(v, k) == ByteOf(v, k)
  {
    assert ByteDigit(v, 0) == v % 0x100 && ByteDigit(v, 1) == v / 0x100 % 0x100;
    assert ByteDigit(v, 2) == v / 0x100 / 0x100 % 0x100;
    assert ByteDigit(v, 3) == v / 0x100 / 0x100 / 0x100 % 0x100;
  }

  // ----- From dispatch to step -----

  lemma LoadStoreStep(c: Codec, m: State, op: nat, rs: nat, rt: nat, low: nat)
    requires rs < 32 && rt < 32 && low < 0x1_0000 && op < 64 && IsLoadStore(op)
    requires Fetched(c, m, IWord(op, rs, rt, low))
    ensures var o := DoLoadStore(c, IWord(op, rs, rt, low), op, m);
            if o.exn == OK then
              o.st.core.pc == m.core.pc && o.st.core.ds == m.core.ds && Step(c, m) == Behind(m, o.st.core.g, o.st.mem)
            else Step(c, m) == o
  {
    hide DoLoadStore, Step, Op.Decode, IWord, Fetched;
    var insn := IWord(op, rs, rt, low);
    DecodeI(op, rs, rt, low);
    StepIs(c, m, insn, op);
    LoadStoreDispatch(c, m, insn, op);
    LoadStoreKeepsPc(c, m, insn, op);
  }

  lemma LoadStoreDispatch(c: Codec, m: State, insn: Word, op: int)
    requires IsLoadStore(op)
    ensures Dispatch(c, insn, op, m) == DoLoadStore(c, insn, op, m)
  {
    hide DoLoadStore;
  }

  lemma LoadStoreKeepsPc(c: Codec, m: State, insn: Word, op: int)
    ensures DoLoadStore(c, insn, op, m).st.core.pc == m.core.pc
    ensures DoLoadStore(c, insn, op, m).st.core.ds == m.core.ds
  {
    hide PeekUb, PeekUh, PeekUw, PokeUb, PokeUh, PokeUw, LoadLeft, LoadRight, StoreLeft, StoreRight, PutRes;
  }

  lemma AddressIs(m: State, op: nat, rs: nat, rt: nat, offset: int)
    requires op < 64 && rs < 32 && rt < 32 && Immediate(offset)
    ensures EffectiveAddress(IWord(op, rs, rt, offset % 0x1_0000), m.core.g.r) == Address(m, rs, offset)
  {
    hide IWord, UImm, SImm;
    IFields(op, rs, rt, offset % 0x1_0000);
    SignedImmediate(op, rs, rt, offset);
    ImmediateSums(Reg(m, rs), offset);
  }

  // ----- Loads -----

  /** LUI, 0x0F, moves the immediate to the high half; its RS field has to be zero. */
  lemma LuiStep(c: Codec, m: State, rs: nat, rt: nat, low: nat)
    requires rs < 32 && rt < 32 && low < 0x1_0000 && Fetched(c, m, IWord(0x0F, rs, rt, low))
    ensures Step(c, m) == if rs != 0 then Outcome(INVALID, m) else Set(m, rt, 0x1_0000 * low)
  {
    hide Step, IWord, Fetched, Op.FieldRs, Op.FieldRt, EffectiveAddress, Pow2;
    Pow2Bytes();
    IFields(0x0F, rs, rt, low);
    LoadStoreStep(c, m, 0x0F, rs, rt, low);
  }

  /** The width of LB 0x20, LH 0x21, LW 0x23, LBU 0x24, LHU 0x25, SB 0x28, SH 0x29 and SW 0x2B. */
  function AccessWidth(op: nat): (n: nat)
    ensures n == 1 || n == 2 || n == 4
  {
    if op == 0x20 || op == 0x24 || op == 0x28 then 1 else if op == 0x21 || op == 0x25 || op == 0x29 then 2 else 4
  }

  predicate IsPlainLoad(op: nat) { op == 0x20 || op == 0x21 || op == 0x23 || op == 0x24 || op == 0x25 }

  function ByteNumber(c: Codec, mem: Ram, a: nat): int
    requires GuestByte(mem, a)
  {
    ByteAt(c, mem, a)
  }

  /** The number a load delivers: its bytes, little-endian, as two's complement for LB and LH. */
  function LoadedNumber(c: Codec, mem: Ram, op: nat, a: Word): int
    requires Reachable(mem, a, AccessWidth(op))
  {
    var n := AccessWidth(op);
    var b0 := ByteNumber(c, mem, a);
    if n == 1 then if op == 0x20 && b0 >= 0x80 then b0 - 0x100 else b0
    else
      var h := b0 + 0x100 * ByteNumber(c, mem, a + 1);
      if n == 2 then if op == 0x21 && h >= 0x8000 then h - 0x1_0000 else h
      else h + 0x1_0000 * ByteNumber(c, mem, a + 2) + 0x100_0000 * ByteNumber(c, mem, a + 3)
  }

  /** A load into a register other than 0 reads its bytes or faults; into register 0 it does nothing. */
  lemma LoadStep(c: Codec, m: State, op: nat, rs: nat, rt: nat, offset: int)
    requires IsPlainLoad(op) && rs < 32 && rt < 32 && Immediate(offset)
    requires Fetched(c, m, IWord(op, rs, rt, offset % 0x1_0000))
    ensures var a := Address(m, rs, offset);
            Step(c, m) == if rt == 0 then Behind(m, m.core.g, m.mem)
                          else if !Reachable(m.mem, a, AccessWidth(op)) then Outcome(ADDRESS, m)
                          else Set(m, rt, LoadedNumber(c, m.mem, op, a))
  {
    hide DoLoadStore, Step, IWord, Fetched, Op.FieldRs, Op.FieldRt, LoadedNumber, EffectiveAddress, Address, Reachable;
    var insn, a := IWord(op, rs, rt, offset % 0x1_0000), Address(m, rs, offset);
    IFields(op, rs, rt, offset % 0x1_0000);
    AddressIs(m, op, rs, rt, offset);
    LoadStoreStep(c, m, op, rs, rt, offset % 0x1_0000);
    LoadEnds(c, m, insn, op, a, rt);
    if Reachable(m.mem, a, AccessWidth(op)) {
      LoadValue(c, m.mem, op, a);
    } else {
      LoadFaults(c, m.mem, op, a);
    }
  }

  function LoadedResult(c: Codec, mem: Ram, op: nat, a: Word): Res<Word> {
    if op == 0x20 then PeekSb(c, mem, a)
    else if op == 0x21 then PeekSh(c, mem, a)
    else if op == 0x23 then PeekUw(c, mem, a)
    else if op == 0x24 then PeekUb(c, mem, a)
    else PeekUh(c, mem, a)
  }

  lemma LoadEnds(c: Codec, m: State, insn: Word, op: nat, a: Word, rt: nat)
    requires IsPlainLoad(op) && EffectiveAddress(insn, m.core.g.r) == a && Op.FieldRt(insn) == rt
    ensures DoLoadStore(c, insn, op, m) == LoadRt(insn, m, LoadedResult(c, m.mem, op, a))
  {
    hide EffectiveAddress, Op.FieldRt, PeekSb, PeekSh, PeekUw, PeekUb, PeekUh, LoadRt;
  }

  lemma LoadFaults(c: Codec, mem: Ram, op: nat, a: Word)
    requires IsPlainLoad(op) && !Reachable(mem, a, AccessWidth(op))
    ensures LoadedResult(c, mem, op, a) == Throw(ADDRESS)
  {
    hide HookPeek;
    assert a % 1 == 0;
  }

  lemma LoadValue(c: Codec, mem: Ram, op: nat, a: Word)
    requires IsPlainLoad(op) && Reachable(mem, a, AccessWidth(op))
    ensures LoadedResult(c, mem, op, a) == Value(LoadedNumber(c, mem, op, a) % 0x1_0000_0000)
  {
    hide ByteAt, PeekUb, PeekUh, PeekUw;
    if AccessWidth(op) == 1 {
      PeekUbReadsByte(c, mem, a);
    } else if AccessWidth(op) == 2 {
      PeekUhReadsBytes(c, mem, a);
    } else {
      PeekUwReadsBytes(c, mem, a);
    }
  }

  // ----- Stores -----

  /** Bytes a..a+n of guest memory hold the bytes of `y` from `first` on; everything else is as it was. */
  ghost predicate StoredBytes(c: Codec, mem: Ram, mem': Ram, a: nat, n: nat, y: nat, first: nat) {
    && |mem'| == |mem|
    && (forall k :: 0 <= k < 0x400 ==> mem'[k] == mem[k])
    && (forall b: nat {:trigger ByteAt(c, mem', b)} :: GuestByte(mem, b) ==>
          ByteAt(c, mem', b) == if a <= b < a + n then ByteDigit(y, first + (b - a)) else ByteAt(c, mem, b))
  }

  lemma WrittenStored(c: Codec, mem: Ram, mem': Ram, a: Word, n: nat, v: Word, y: Word, first: nat)
    requires first + n <= 4 && BytesWritten(c, mem, mem', a, n, v)
    requires forall k: nat {:trigger ByteOf(v, k)} :: k < n ==> ByteOf(v, k) == ByteOf(y, first + k)
    ensures StoredBytes(c, mem, mem', a, n, y, first)
  {
    hide ByteAt, ByteOf, ByteDigit;
    forall b: nat {:trigger ByteAt(c, mem', b)} | GuestByte(mem, b)
      ensures ByteAt(c, mem', b) == if a <= b < a + n then ByteDigit(y, first + (b - a)) else ByteAt(c, mem, b)
    {
      if a <= b < a + n {
        ByteDigitIs(y, first + (b - a));
        assert ByteOf(v, b - a) == ByteOf(y, first + (b - a));
      }
    }
  }

  predicate IsPlainStore(op: nat) { op == 0x28 || op == 0x29 || op == 0x2B }

  function StoredResult(c: Codec, mem: Ram, op: nat, a: Word, y: Word): Res<Ram> {
    if op == 0x28 then PokeUb(c, mem, a, y % 0x100)
    else if op == 0x29 then PokeUh(c, mem, a, y % 0x1_0000)
    else PokeUw(c, mem, a, y)
  }

  lemma StoreEnds(c: Codec, m: State, insn: Word, op: nat, a: Word, y: Word)
    requires IsPlainStore(op) && EffectiveAddress(insn, m.core.g.r) == a && Rt(insn, m.core.g.r) == y
    ensures DoLoadStore(c, insn, op, m) == StoreTo(m, StoredResult(c, m.mem, op, a, y))
  {
    hide EffectiveAddress, Op.FieldRt, Rt, PokeUb, PokeUh, PokeUw, StoreTo;
  }

  lemma StoreValue(c: Codec, mem: Ram, op: nat, a: Word, y: Word)
    requires Sound(c) && IsPlainStore(op)
    ensures var r := StoredResult(c, mem, op, a, y);
            if !Reachable(mem, a, AccessWidth(op)) then r == Throw(ADDRESS)
            else r.Value? && StoredBytes(c, mem, r.value, a, AccessWidth(op), y, 0)
  {
    hide PokeUb, PokeUh, PokeUw, BytesWritten, StoredBytes, ByteOf;
    assert a % 1 == 0;
    if op == 0x28 {
      PokeUbWritesByte(c, mem, a, y % 0x100);
      LowBytes(y);
      if Reachable(mem, a, 1) {
        WrittenStored(c, mem, PokeUb(c, mem, a, y % 0x100).value, a, 1, y % 0x100, y, 0);
      }
    } else if op == 0x29 {
      PokeUhWritesBytes(c, mem, a, y % 0x1_0000);
      LowBytes(y);
      if Reachable(mem, a, 2) {
        WrittenStored(c, mem, PokeUh(c, mem, a, y % 0x1_0000).value, a, 2, y % 0x1_0000, y, 0);
      }
    } else {
      PokeUwWritesBytes(c, mem, a, y);
      if Reachable(mem, a, 4) {
        WrittenStored(c, mem, PokeUw(c, mem, a, y).value, a, 4, y, y, 0);
      }
    }
  }

  lemma LowBytes(y: Word)
    ensures ByteOf(y % 0x100, 0) == ByteOf(y, 0)
    ensures ByteOf(y % 0x1_0000, 0) == ByteOf(y, 0) && ByteOf(y % 0x1_0000, 1) == ByteOf(y, 1)
  {
    LowHalf(y);
  }

  /** A store writes the low bytes of its register, or faults. */
  lemma StoreStep(c: Codec, m: State, op: nat, rs: nat, rt: nat, offset: int)
    requires Sound(c) && IsPlainStore(op) && rs < 32 && rt < 32 && Immediate(offset)
    requires Fetched(c, m, IWord(op, rs, rt, offset % 0x1_0000))
    ensures var a := Address(m, rs, offset);
            if !Reachable(m.mem, a, AccessWidth(op)) then Step(c, m) == Outcome(ADDRESS, m)
            else
              var mem' := Step(c, m).st.mem;
              Step(c, m) == Behind(m, m.core.g, mem') && StoredBytes(c, m.mem, mem', a, AccessWidth(op), Reg(m, rt), 0)
  {
    hide DoLoadStore, Step, IWord, Fetched, Op.FieldRs, Op.FieldRt, EffectiveAddress, Address, Reachable, StoredBytes,
         StoredResult;
    var insn, a := IWord(op, rs, rt, offset % 0x1_0000), Address(m, rs, offset);
    IFields(op, rs, rt, offset % 0x1_0000);
    AddressIs(m, op, rs, rt, offset);
    LoadStoreStep(c, m, op, rs, rt, offset % 0x1_0000);
    StoreEnds(c, m, insn, op, a, Reg(m, rt));
    StoreValue(c, m.mem, op, a, Reg(m, rt));
  }

  // ----- Unaligned loads and stores -----

  /** Byte `k` of what LWL 0x22 or LWR 0x26 leaves in a register holding `held`: LWL fills the high bytes up to
      the byte at `a`, LWR the low bytes from it, from the word around `a`. */
  function MergedByte(c: Codec, mem: Ram, op: nat, a: Word, held: Word, k: nat): nat
    requires k < 4 && 0x1000 <= a < 4 * |mem|
  {
    if op == 0x22 then if k + a % 4 < 3 then ByteDigit(held, k) else ByteAt(c, mem, a + k - 3)
    else if k + a % 4 > 3 then ByteDigit(held, k) else ByteAt(c, mem, a + k)
  }

  lemma UnalignedLoadStep(c: Codec, m: State, op: nat, rs: nat, rt: nat, offset: int) returns (v: Word)
    requires (op == 0x22 || op == 0x26) && rs < 32 && rt < 32 && Immediate(offset)
    requires Fetched(c, m, IWord(op, rs, rt, offset % 0x1_0000))
    ensures var a := Address(m, rs, offset);
            if !(0x1000 <= a < 4 * |m.mem|) then Step(c, m) == Outcome(ADDRESS, m)
            else
              && Step(c, m) == Set(m, rt, v)
              && forall k: nat {:trigger ByteDigit(v, k)} :: k < 4 ==>
                   ByteDigit(v, k) == MergedByte(c, m.mem, op, a, Reg(m, rt), k)
  {
    hide DoLoadStore, Step, IWord, Fetched, Op.FieldRs, Op.FieldRt, EffectiveAddress, Address, LoadLeft, LoadRight,
         ByteDigit, MergedByte;
    var insn, a, held := IWord(op, rs, rt, offset % 0x1_0000), Address(m, rs, offset), Reg(m, rt);
    IFields(op, rs, rt, offset % 0x1_0000);
    AddressIs(m, op, rs, rt, offset);
    LoadStoreStep(c, m, op, rs, rt, offset % 0x1_0000);
    UnalignedLoadEnds(c, m, insn, op, a, rt);
    v := 0;
    if 0x1000 <= a < 4 * |m.mem| {
      v := MergedValue(c, m.mem, op, a, held);
    } else {
      MergeFaults(c, m.mem, a, held);
    }
  }

  lemma UnalignedLoadEnds(c: Codec, m: State, insn: Word, op: nat, a: Word, rt: nat)
    requires (op == 0x22 || op == 0x26) && EffectiveAddress(insn, m.core.g.r) == a && Op.FieldRt(insn) == rt
    ensures DoLoadStore(c, insn, op, m) ==
            EagerLoadRt(insn, m, if op == 0x22 then LoadLeft(c, m.mem, a, m.core.g.r[rt]) else LoadRight(c, m.mem, a, m.core.g.r[rt]))
  {
    hide EffectiveAddress, Op.FieldRt, LoadLeft, LoadRight, EagerLoadRt;
  }

  lemma MergeFaults(c: Codec, mem: Ram, a: Word, held: Word)
    requires !(0x1000 <= a < 4 * |mem|)
    ensures LoadLeft(c, mem, a, held) == Throw(ADDRESS) && LoadRight(c, mem, a, held) == Throw(ADDRESS)
  {
  }

  lemma MergedValue(c: Codec, mem: Ram, op: nat, a: Word, held: Word) returns (v: Word)
    requires (op == 0x22 || op == 0x26) && 0x1000 <= a < 4 * |mem|
    ensures (if op == 0x22 then LoadLeft(c, mem, a, held) else LoadRight(c, mem, a, held)) == Value(v)
    ensures forall k: nat {:trigger ByteDigit(v, k)} :: k < 4 ==> ByteDigit(v, k) == MergedByte(c, mem, op, a, held, k)
  {
    hide HookPeek, MergeLeft, MergeRight, ByteDigit, ByteOf;
    var base, s := a - a % 4, a % 4;
    var w := HookPeek(c, mem, base);
    v := if op == 0x22 then MergeLeft(w, held, s) else MergeRight(w, held, s);
    forall k: nat {:trigger ByteDigit(v, k)} | k < 4
      ensures ByteDigit(v, k) == MergedByte(c, mem, op, a, held, k)
    {
      ByteDigitIs(v, k);
      ByteDigitIs(held, k);
      if op == 0x22 {
        U.MergeLeftBytes(w, held, s, k);
        if k >= 3 - s {
          ByteInWord(c, mem, base, k - (3 - s));
        }
      } else {
        U.MergeRightBytes(w, held, s, k);
        if k < 4 - s {
          ByteInWord(c, mem, base, k + s);
        }
      }
    }
  }

  /** SWL, 0x2A, writes the high bytes of its register from the start of the word up to `a`; SWR, 0x2E, the
      low ones from `a` to the end of the word. */
  lemma UnalignedStoreStep(c: Codec, m: State, op: nat, rs: nat, rt: nat, offset: int)
    requires Sound(c) && (op == 0x2A || op == 0x2E) && rs < 32 && rt < 32 && Immediate(offset)
    requires Fetched(c, m, IWord(op, rs, rt, offset % 0x1_0000))
    ensures var a := Address(m, rs, offset);
            if !(0x1000 <= a < 4 * |m.mem|) then Step(c, m) == Outcome(ADDRESS, m)
            else
              var mem' := Step(c, m).st.mem;
              && Step(c, m) == Behind(m, m.core.g, mem')
              && if op == 0x2A then StoredBytes(c, m.mem, mem', a - a % 4, a % 4 + 1, Reg(m, rt), 3 - a % 4)
                 else StoredBytes(c, m.mem, mem', a, 4 - a % 4, Reg(m, rt), 0)
  {
    hide DoLoadStore, Step, IWord, Fetched, Op.FieldRs, Op.FieldRt, EffectiveAddress, Address, StoreLeft, StoreRight,
         StoredBytes;
    var insn, a, y := IWord(op, rs, rt, offset % 0x1_0000), Address(m, rs, offset), Reg(m, rt);
    IFields(op, rs, rt, offset % 0x1_0000);
    AddressIs(m, op, rs, rt, offset);
    LoadStoreStep(c, m, op, rs, rt, offset % 0x1_0000);
    UnalignedStoreEnds(c, m, insn, op, a, y);
    SpilledValue(c, m.mem, op, a, y);
  }

  lemma UnalignedStoreEnds(c: Codec, m: State, insn: Word, op: nat, a: Word, y: Word)
    requires (op == 0x2A || op == 0x2E) && EffectiveAddress(insn, m.core.g.r) == a && Rt(insn, m.core.g.r) == y
    ensures DoLoadStore(c, insn, op, m) ==
            StoreTo(m, if op == 0x2A then StoreLeft(c, m.mem, a, y) else StoreRight(c, m.mem, a, y))
  {
    hide EffectiveAddress, Rt, StoreLeft, StoreRight, StoreTo;
  }

  lemma SpilledValue(c: Codec, mem: Ram, op: nat, a: Word, y: Word)
    requires Sound(c) && (op == 0x2A || op == 0x2E)
    ensures var r := if op == 0x2A then StoreLeft(c, mem, a, y) else StoreRight(c, mem, a, y);
            if !(0x1000 <= a < 4 * |mem|) then r == Throw(ADDRESS)
            else
              && r.Value?
              && if op == 0x2A then StoredBytes(c, mem, r.value, a - a % 4, a % 4 + 1, y, 3 - a % 4)
                 else StoredBytes(c, mem, r.value, a, 4 - a % 4, y, 0)
  {
    hide StoreLeft, StoreRight, BytesWritten, StoredBytes, ByteOf, Shr;
    var s := a % 4;
    if !(0x1000 <= a < 4 * |mem|) {
      SpillFaults(c, mem, a, y);
    } else if op == 0x2A {
      U.StoreLeftBytes(c, mem, a, y);
      var v := Shr(y, 8 * (3 - s));
      forall k: nat {:trigger ByteOf(v, k)} | k < s + 1
        ensures ByteOf(v, k) == ByteOf(y, 3 - s + k)
      {
        ShrBytes(y, 3 - s, k);
      }
      WrittenStored(c, mem, StoreLeft(c, mem, a, y).value, a - s, s + 1, v, y, 3 - s);
    } else {
      U.StoreRightBytes(c, mem, a, y);
      WrittenStored(c, mem, StoreRight(c, mem, a, y).value, a, 4 - s, y, y, 0);
    }
  }

  lemma SpillFaults(c: Codec, mem: Ram, a: Word, y: Word)
    requires !(0x1000 <= a < 4 * |mem|)
    ensures StoreLeft(c, mem, a, y) == Throw(ADDRESS) && StoreRight(c, mem, a, y) == Throw(ADDRESS)
  {
  }
}
