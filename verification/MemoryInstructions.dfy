/** The aligned load and store instructions, against the byte-addressed memory. */
module MemoryInstructions {
  import opened Bits
  import opened Memory
  import opened Machine
  import Op = Opcodes

  /** The width in bytes of an aligned access, 0 for other opcodes. */
  function Width(op: int): nat {
    if op == Op.LB || op == Op.LBU || op == Op.SB then 1
    else if op == Op.LH || op == Op.LHU || op == Op.SH then 2
    else if op == Op.LW || op == Op.SW then 4
    else 0
  }

  predicate IsAlignedLoad(op: int) { op == Op.LB || op == Op.LBU || op == Op.LH || op == Op.LHU || op == Op.LW }
  predicate IsAlignedStore(op: int) { op == Op.SB || op == Op.SH || op == Op.SW }

  /** All bytes of the access are guest bytes and its address is a multiple of its width. */
  predicate Accessible(mem: Ram, a: Word, n: nat)
    requires n > 0
  {
    GuestByte(mem, a) && GuestByte(mem, a + (n - 1)) && a % n == 0
  }

  /** The number a load delivers: the bytes at `a`, little-endian, signed for LB and LH. */
  function Loaded(c: Codec, mem: Ram, op: int, a: Word): int
    requires IsAlignedLoad(op) && Accessible(mem, a, Width(op))
  {
    if op == Op.LB then SignedByte(ByteAt(c, mem, a))
    else if op == Op.LBU then ByteAt(c, mem, a)
    else if op == Op.LH then SignedHalf(Pair(c, mem, a))
    else if op == Op.LHU then Pair(c, mem, a)
    else Signed(Join(ByteAt(c, mem, a), ByteAt(c, mem, a + 1), ByteAt(c, mem, a + 2), ByteAt(c, mem, a + 3)))
  }

  function Pair(c: Codec, mem: Ram, a: nat): Half
    requires GuestByte(mem, a) && GuestByte(mem, a + 1)
  {
    ByteAt(c, mem, a) + 0x100 * ByteAt(c, mem, a + 1)
  }

  /** The word a load computes, if its address is accessible. */
  function Operand(c: Codec, mem: Ram, op: int, a: Word): Res<Word>
    requires IsAlignedLoad(op)
  {
    if op == Op.LB then PeekSb(c, mem, a)
    else if op == Op.LBU then PeekUb(c, mem, a)
    else if op == Op.LH then PeekSh(c, mem, a)
    else if op == Op.LHU then PeekUh(c, mem, a)
    else PeekUw(c, mem, a)
  }

  lemma ByteOperand(c: Codec, mem: Ram, op: int, a: Word)
    requires op == Op.LB || op == Op.LBU
    ensures if Accessible(mem, a, 1) then
              Operand(c, mem, op, a).Value? && Signed(Operand(c, mem, op, a).value) == Loaded(c, mem, op, a)
            else Operand(c, mem, op, a) == Throw(ADDRESS)
  {
    hide ByteAt, PeekUb;
    PeekUbReadsByte(c, mem, a);
    SignedPeeks(c, mem, a);
  }

  lemma HalfOperand(c: Codec, mem: Ram, op: int, a: Word)
    requires op == Op.LH || op == Op.LHU
    ensures if Accessible(mem, a, 2) then
              Operand(c, mem, op, a).Value? && Signed(Operand(c, mem, op, a).value) == Loaded(c, mem, op, a)
            else Operand(c, mem, op, a) == Throw(ADDRESS)
  {
    hide ByteAt, PeekUh;
    PeekUhReadsBytes(c, mem, a);
    SignedPeeks(c, mem, a);
  }

  lemma WordOperand(c: Codec, mem: Ram, a: Word)
    ensures if Accessible(mem, a, 4) then
              Operand(c, mem, Op.LW, a).Value? && Signed(Operand(c, mem, Op.LW, a).value) == Loaded(c, mem, Op.LW, a)
            else Operand(c, mem, Op.LW, a) == Throw(ADDRESS)
  {
    hide ByteAt, PeekUw;
    PeekUwReadsBytes(c, mem, a);
  }

  /** A load into a register other than 0 reads the bytes at its effective address or raises an address
      exception; into register 0 it does nothing and never faults. */
  lemma LoadsReadBytes(c: Codec, m: State, insn: Word, op: int)
    requires IsAlignedLoad(op)
    ensures var o, a, t := DoLoadStore(c, insn, op, m), EffectiveAddress(insn, m.core.g.r), Op.FieldRt(insn);
            if t == 0 then o == Outcome(OK, m)
            else if !Accessible(m.mem, a, Width(op)) then o == Outcome(ADDRESS, m)
            else
              && o.exn == OK && Signed(o.st.core.g.r[t]) == Loaded(c, m.mem, op, a)
              && o.st == m.(core := m.core.(g := m.core.g.(r := m.core.g.r[t := o.st.core.g.r[t]])))
  {
    hide PeekUb, PeekUh, PeekUw, PeekSb, PeekSh, EffectiveAddress, Op.FieldRt, Loaded, Accessible;
    var a := EffectiveAddress(insn, m.core.g.r);
    if op == Op.LB || op == Op.LBU {
      ByteOperand(c, m.mem, op, a);
    } else if op == Op.LH || op == Op.LHU {
      HalfOperand(c, m.mem, op, a);
    } else {
      WordOperand(c, m.mem, a);
    }
  }

  lemma LowDigits(v: Word)
    ensures ByteOf(v % 0x100, 0) == ByteOf(v, 0)
    ensures ByteOf(v % 0x1_0000, 0) == ByteOf(v, 0) && ByteOf(v % 0x1_0000, 1) == ByteOf(v, 1)
  {
    LowHalf(v);
  }

  /** A poke of a truncated value writes the low bytes of the whole one. */
  lemma WrittenLow(c: Codec, mem: Ram, mem': Ram, a: Word, n: nat, v: Word)
    requires n == 1 || n == 2
    requires BytesWritten(c, mem, mem', a, n, if n == 1 then v % 0x100 else v % 0x1_0000)
    ensures BytesWritten(c, mem, mem', a, n, v)
  {
    hide ByteAt, ByteOf;
    LowDigits(v);
  }

  /** A store writes the low bytes of its register at its effective address and nothing else, or raises
      an address exception and changes nothing. */
  lemma StoresWriteBytes(c: Codec, m: State, insn: Word, op: int)
    requires Sound(c) && IsAlignedStore(op)
    ensures var o, a := DoLoadStore(c, insn, op, m), EffectiveAddress(insn, m.core.g.r);
            if !ValidAddress(m.mem, a, Width(op) - 1) then o == Outcome(ADDRESS, m)
            else
              && o.exn == OK && o.st.core == m.core
              && BytesWritten(c, m.mem, o.st.mem, a, Width(op), Rt(insn, m.core.g.r))
  {
    hide PokeUb, PokeUh, PokeUw, EffectiveAddress, Op.FieldRt, BytesWritten, ValidAddress;
    var a, v := EffectiveAddress(insn, m.core.g.r), Rt(insn, m.core.g.r);
    if op == Op.SB {
      PokeUbWritesByte(c, m.mem, a, v % 0x100);
      if ValidAddress(m.mem, a, 0) {
        WrittenLow(c, m.mem, PokeUb(c, m.mem, a, v % 0x100).value, a, 1, v);
      }
    } else if op == Op.SH {
      PokeUhWritesBytes(c, m.mem, a, v % 0x1_0000);
      if ValidAddress(m.mem, a, 1) {
        WrittenLow(c, m.mem, PokeUh(c, m.mem, a, v % 0x1_0000).value, a, 2, v);
      }
    } else {
      PokeUwWritesBytes(c, m.mem, a, v);
    }
  }
}
