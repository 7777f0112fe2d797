/** The unaligned access pairs LWR/LWL and SWR/SWL, against the byte-addressed memory. */
module Unaligned {
  import opened Bits
  import opened Memory
  import opened Machine
  import Op = Opcodes

  // ----- Bytes of the merged words -----

  lemma OnesBytes(k: nat)
    requires k < 4
    ensures ByteOf(ALL_ONES, k) == 0xFF
  {
  }

  /** Byte `k` of `x` with the mask `ones` shifted right or left by whole bytes. */
  lemma MaskedRight(x: Word, j: nat, k: nat)
    requires j < 4 && k < 4
    ensures ByteOf(And(x, Shr(ALL_ONES, 8 * j)), k) == if k + j < 4 then ByteOf(x, k) else 0
  {
    hide Shr, ByteOf;
    ShrBytes(ALL_ONES, j, k);
    BitwiseBytes(BitOp.AND, x, Shr(ALL_ONES, 8 * j), k);
    ByteMasks(ByteOf(x, k));
    if k + j < 4 {
      OnesBytes(k + j);
    }
  }

  lemma MaskedLeft(x: Word, j: nat, k: nat)
    requires j < 4 && k < 4
    ensures ByteOf(And(x, Shl(ALL_ONES, 8 * j)), k) == if k < j then 0 else ByteOf(x, k)
  {
    hide Shl, ByteOf;
    ShlBytes(ALL_ONES, j, k);
    BitwiseBytes(BitOp.AND, x, Shl(ALL_ONES, 8 * j), k);
    ByteMasks(ByteOf(x, k));
    if k >= j {
      OnesBytes(k - j);
    }
  }

  lemma OrByte(x: Word, y: Word, k: nat)
    requires k < 4 && (ByteOf(x, k) == 0 || ByteOf(y, k) == 0)
    ensures ByteOf(Or(x, y), k) == ByteOf(x, k) + ByteOf(y, k)
  {
    hide ByteOf;
    BitwiseBytes(BitOp.OR, x, y, k);
    ByteMasks(ByteOf(x, k));
    ByteMasks(ByteOf(y, k));
  }

  lemma ZeroBytes(k: nat)
    requires k < 4
    ensures ByteOf(0, k) == 0
  {
  }

  lemma MergeLeftBytes(w: Word, rt: Word, s: nat, k: nat)
    requires s < 4 && k < 4
    ensures ByteOf(MergeLeft(w, rt, s), k) == if k < 3 - s then ByteOf(rt, k) else ByteOf(w, k - (3 - s))
  {
    hide ByteOf, Shl, Shr, And, Or;
    var kept := if s != 3 then And(rt, Shr(ALL_ONES, 8 * (s + 1))) else 0;
    ShlBytes(w, 3 - s, k);
    ZeroBytes(k);
    if s != 3 {
      MaskedRight(rt, s + 1, k);
    }
    OrByte(Shl(w, 8 * (3 - s)), kept, k);
  }

  lemma MergeRightBytes(w: Word, rt: Word, s: nat, k: nat)
    requires s < 4 && k < 4
    ensures ByteOf(MergeRight(w, rt, s), k) == if k < 4 - s then ByteOf(w, k + s) else ByteOf(rt, k)
  {
    hide ByteOf, Shl, Shr, And, Or;
    var kept := if s != 0 then And(rt, Shl(ALL_ONES, 8 * (4 - s))) else 0;
    ShrBytes(w, s, k);
    ZeroBytes(k);
    if s != 0 {
      MaskedLeft(rt, 4 - s, k);
    }
    OrByte(Shr(w, 8 * s), kept, k);
  }

  lemma SpillLeftBytes(w: Word, rt: Word, s: nat, k: nat)
    requires s < 4 && k < 4
    ensures ByteOf(SpillLeft(w, rt, s), k) == if k <= s then ByteOf(rt, k + 3 - s) else ByteOf(w, k)
  {
    hide ByteOf, Shl, Shr, And, Or;
    var kept := if s != 3 then And(w, Shl(ALL_ONES, 8 * (s + 1))) else 0;
    ShrBytes(rt, 3 - s, k);
    ZeroBytes(k);
    if s != 3 {
      MaskedLeft(w, s + 1, k);
    }
    OrByte(kept, Shr(rt, 8 * (3 - s)), k);
  }

  lemma SpillRightBytes(w: Word, rt: Word, s: nat, k: nat)
    requires s < 4 && k < 4
    ensures ByteOf(SpillRight(w, rt, s), k) == if k < s then ByteOf(w, k) else ByteOf(rt, k - s)
  {
    hide ByteOf, Shl, Shr, And, Or;
    var kept := if s != 0 then And(w, Shr(ALL_ONES, 8 * (4 - s))) else 0;
    ShlBytes(rt, s, k);
    ZeroBytes(k);
    if s != 0 {
      MaskedRight(w, 4 - s, k);
    }
    OrByte(kept, Shl(rt, 8 * s), k);
  }

  // ----- Loads -----

  /** All four bytes from `a` on are guest bytes. */
  predicate FourBytes(mem: Ram, a: nat) {
    LOWBASE <= a && a + 3 < MemSize(mem)
  }

  /** The little-endian word of the bytes a..a+3, at any alignment. */
  function WordAt(c: Codec, mem: Ram, a: nat): Word
    requires FourBytes(mem, a)
  {
    Join(ByteAt(c, mem, a), ByteAt(c, mem, a + 1), ByteAt(c, mem, a + 2), ByteAt(c, mem, a + 3))
  }

  lemma WordAtBytes(c: Codec, mem: Ram, a: nat, k: nat)
    requires FourBytes(mem, a) && k < 4
    ensures ByteOf(WordAt(c, mem, a), k) == ByteAt(c, mem, a + k)
  {
    hide ByteAt;
    BytesOfJoin(ByteAt(c, mem, a), ByteAt(c, mem, a + 1), ByteAt(c, mem, a + 2), ByteAt(c, mem, a + 3));
  }

  /** LWR takes the bytes from `a` to the end of its word, and keeps the rest of the register. */
  lemma LoadRightBytes(c: Codec, mem: Ram, a: Word, rt: Word)
    requires FourBytes(mem, a)
    ensures var r := LoadRight(c, mem, a, rt);
            r.Value? && forall k: nat :: k < 4 ==>
              ByteOf(r.value, k) == if k < 4 - a % 4 then ByteAt(c, mem, a + k) else ByteOf(rt, k)
  {
    hide ByteOf, MergeRight, HookPeek;
    var s := a % 4;
    var w := HookPeek(c, mem, a - s);
    forall k: nat | k < 4
      ensures ByteOf(MergeRight(w, rt, s), k) == if k < 4 - s then ByteAt(c, mem, a + k) else ByteOf(rt, k)
    {
      MergeRightBytes(w, rt, s, k);
      if k < 4 - s {
        ByteInWord(c, mem, a - s, k + s);
      }
    }
  }

  /** LWL at a + 3 takes the remaining bytes, those after the end of the word that holds `a`. */
  lemma LoadLeftBytes(c: Codec, mem: Ram, a: Word, rt: Word)
    requires FourBytes(mem, a)
    ensures var r := LoadLeft(c, mem, a + 3, rt);
            r.Value? && forall k: nat :: k < 4 ==>
              ByteOf(r.value, k) == if a % 4 == 0 || k >= 4 - a % 4 then ByteAt(c, mem, a + k) else ByteOf(rt, k)
  {
    hide ByteOf, MergeLeft, HookPeek;
    var s := (a + 3) % 4;
    var base := a + 3 - s;
    var w := HookPeek(c, mem, base);
    forall k: nat | k < 4
      ensures ByteOf(MergeLeft(w, rt, s), k) ==
              if a % 4 == 0 || k >= 4 - a % 4 then ByteAt(c, mem, a + k) else ByteOf(rt, k)
    {
      MergeLeftBytes(w, rt, s, k);
      if k >= 3 - s {
        ByteInWord(c, mem, base, k - (3 - s));
      }
    }
  }

  /** Either order of the pair loads exactly the word of the bytes a..a+3. */
  lemma LoadPair(c: Codec, mem: Ram, a: Word, rt: Word)
    requires FourBytes(mem, a)
    ensures var first := LoadRight(c, mem, a, rt);
            first.Value? && LoadLeft(c, mem, a + 3, first.value) == Value(WordAt(c, mem, a))
    ensures var first := LoadLeft(c, mem, a + 3, rt);
            first.Value? && LoadRight(c, mem, a, first.value) == Value(WordAt(c, mem, a))
  {
    hide ByteOf, WordAt, LoadLeft, LoadRight, ByteAt;
    LoadRightBytes(c, mem, a, rt);
    LoadLeftBytes(c, mem, a, rt);
    var right, left := LoadRight(c, mem, a, rt).value, LoadLeft(c, mem, a + 3, rt).value;
    LoadLeftBytes(c, mem, a, right);
    LoadRightBytes(c, mem, a, left);
    forall k: nat | k < 4
      ensures ByteOf(WordAt(c, mem, a), k) == ByteAt(c, mem, a + k)
    {
      WordAtBytes(c, mem, a, k);
    }
    SameBytes(LoadLeft(c, mem, a + 3, right).value, WordAt(c, mem, a));
    SameBytes(LoadRight(c, mem, a, left).value, WordAt(c, mem, a));
  }

  // ----- Stores -----

  /** SWR writes the low bytes of the register from `a` to the end of its word. */
  lemma StoreRightBytes(c: Codec, mem: Ram, a: Word, rt: Word)
    requires Sound(c) && GuestByte(mem, a)
    ensures var r := StoreRight(c, mem, a, rt);
            r.Value? && BytesWritten(c, mem, r.value, a, 4 - a % 4, rt)
  {
    hide ByteOf, SpillRight, HookPeek, HookPoke, BytesWritten;
    var s := a % 4;
    var w := HookPeek(c, mem, a - s);
    var prior := if s == 0 then 0 else w;
    forall k: nat | k < 4
      ensures ByteOf(SpillRight(prior, rt, s), k) == if s <= k < s + (4 - s) then ByteOf(rt, k - s) else ByteOf(w, k)
    {
      SpillRightBytes(prior, rt, s, k);
    }
    WordWritten(c, mem, a - s, s, 4 - s, SpillRight(prior, rt, s), rt);
  }

  /** SWL at `ea` writes the high bytes of the register from the start of its word up to `ea`. */
  lemma StoreLeftBytes(c: Codec, mem: Ram, ea: Word, rt: Word)
    requires Sound(c) && GuestByte(mem, ea)
    ensures var r := StoreLeft(c, mem, ea, rt); var s := ea % 4;
            r.Value? && BytesWritten(c, mem, r.value, ea - s, s + 1, Shr(rt, 8 * (3 - s)))
  {
    hide ByteOf, SpillLeft, HookPeek, HookPoke, BytesWritten, Shr;
    var s := ea % 4;
    var w := HookPeek(c, mem, ea - s);
    var prior := if s == 3 then 0 else w;
    var v := Shr(rt, 8 * (3 - s));
    forall k: nat | k < 4
      ensures ByteOf(SpillLeft(prior, rt, s), k) == if 0 <= k < 0 + (s + 1) then ByteOf(v, k - 0) else ByteOf(w, k)
    {
      SpillLeftBytes(prior, rt, s, k);
      ShrBytes(rt, 3 - s, k);
    }
    WordWritten(c, mem, ea - s, 0, s + 1, SpillLeft(prior, rt, s), v);
  }

  lemma StoreLeftAfter(c: Codec, mem: Ram, a: Word, rt: Word, b: nat)
    requires Sound(c) && FourBytes(mem, a) && GuestByte(mem, b)
    ensures var r := StoreLeft(c, mem, a + 3, rt);
            r.Value? && SameControlBlock(mem, r.value) &&
            ByteAt(c, r.value, b) ==
            if a <= b < a + 4 && (a % 4 == 0 || b >= a + 4 - a % 4) then ByteOf(rt, b - a) else ByteAt(c, mem, b)
  {
    hide ByteOf, ByteAt, StoreLeft, Shr;
    var s := (a + 3) % 4;
    StoreLeftBytes(c, mem, a + 3, rt);
    if a + 3 - s <= b <= a + 3 {
      ShrBytes(rt, 3 - s, b - (a + 3 - s));
    }
  }

  lemma StoreRightAfter(c: Codec, mem: Ram, a: Word, rt: Word, b: nat)
    requires Sound(c) && FourBytes(mem, a) && GuestByte(mem, b)
    ensures var r := StoreRight(c, mem, a, rt);
            r.Value? && SameControlBlock(mem, r.value) &&
            ByteAt(c, r.value, b) == if a <= b < a + 4 - a % 4 then ByteOf(rt, b - a) else ByteAt(c, mem, b)
  {
    hide ByteOf, ByteAt, StoreRight;
    StoreRightBytes(c, mem, a, rt);
  }

  /** Either order of the pair writes exactly the bytes a..a+3, to the little-endian bytes of `rt`. */
  lemma StorePair(c: Codec, mem: Ram, a: Word, rt: Word)
    requires Sound(c) && FourBytes(mem, a)
    ensures var first := StoreRight(c, mem, a, rt);
            first.Value? && var second := StoreLeft(c, first.value, a + 3, rt);
            second.Value? && BytesWritten(c, mem, second.value, a, 4, rt)
    ensures var first := StoreLeft(c, mem, a + 3, rt);
            first.Value? && var second := StoreRight(c, first.value, a, rt);
            second.Value? && BytesWritten(c, mem, second.value, a, 4, rt)
  {
    hide ByteOf, ByteAt, StoreRight, StoreLeft;
    StoreRightAfter(c, mem, a, rt, a);
    StoreLeftAfter(c, mem, a, rt, a);
    var right, left := StoreRight(c, mem, a, rt).value, StoreLeft(c, mem, a + 3, rt).value;
    StoreLeftAfter(c, right, a, rt, a);
    StoreRightAfter(c, left, a, rt, a);
    forall b: nat | GuestByte(mem, b)
      ensures ByteAt(c, StoreLeft(c, right, a + 3, rt).value, b) ==
              if a <= b < a + 4 then ByteOf(rt, b - a) else ByteAt(c, mem, b)
      ensures ByteAt(c, StoreRight(c, left, a, rt).value, b) ==
              if a <= b < a + 4 then ByteOf(rt, b - a) else ByteAt(c, mem, b)
    {
      StoreRightAfter(c, mem, a, rt, b);
      StoreLeftAfter(c, mem, a, rt, b);
      StoreLeftAfter(c, right, a, rt, b);
      StoreRightAfter(c, left, a, rt, b);
    }
  }

  /** Memory that has had `v` written at `a` reads back as `v` there. */
  lemma ReadsBack(c: Codec, mem: Ram, mem': Ram, a: nat, v: Word)
    requires FourBytes(mem, a) && a < WORD && BytesWritten(c, mem, mem', a, 4, v)
    ensures WordAt(c, mem', a) == v
  {
    hide ByteAt, ByteOf;
    assert ByteAt(c, mem', a) == ByteOf(v, 0) && ByteAt(c, mem', a + 1) == ByteOf(v, 1);
    assert ByteAt(c, mem', a + 2) == ByteOf(v, 2) && ByteAt(c, mem', a + 3) == ByteOf(v, 3);
    JoinBytes(v);
  }

  // ----- The instructions -----

  /** The pair of loads as instructions: `right` is an LWR at `a`, `left` an LWL at a + 3, both into the
      same register, which is not the base of the one that runs second. */
  lemma UnalignedLoad(c: Codec, m: State, right: Word, left: Word, a: Word)
    requires FourBytes(m.mem, a)
    requires EffectiveAddress(right, m.core.g.r) == a && EffectiveAddress(left, m.core.g.r) == a + 3
    requires Op.FieldRt(right) == Op.FieldRt(left) != 0
    ensures var loaded := m.(core := m.core.(g := m.core.g.(r := Put(m.core.g.r, Op.FieldRt(left), WordAt(c, m.mem, a)))));
            && (Op.FieldRs(left) != Op.FieldRt(left) ==>
                  var first := DoLoadStore(c, right, Op.LWR, m);
                  first.exn == OK && DoLoadStore(c, left, Op.LWL, first.st) == Outcome(OK, loaded))
            && (Op.FieldRs(right) != Op.FieldRt(right) ==>
                  var first := DoLoadStore(c, left, Op.LWL, m);
                  first.exn == OK && DoLoadStore(c, right, Op.LWR, first.st) == Outcome(OK, loaded))
  {
    hide LoadLeft, LoadRight, WordAt, Op.FieldRs, Op.FieldRt, UImm;
    var r, i := m.core.g.r, Op.FieldRt(left);
    LoadPair(c, m.mem, a, Rt(left, r));
    PutTwice(r, i, LoadRight(c, m.mem, a, r[i]).value, WordAt(c, m.mem, a));
    PutTwice(r, i, LoadLeft(c, m.mem, a + 3, r[i]).value, WordAt(c, m.mem, a));
  }

  lemma PutTwice(r: RegFile, i: nat, v: Word, w: Word)
    requires i < 32
    ensures Put(Put(r, i, v), i, w) == Put(r, i, w)
  {
  }

  lemma UnalignedStore(c: Codec, m: State, right: Word, left: Word, a: Word)
    requires Sound(c) && FourBytes(m.mem, a)
    requires EffectiveAddress(right, m.core.g.r) == a && EffectiveAddress(left, m.core.g.r) == a + 3
    requires Op.FieldRt(right) == Op.FieldRt(left)
    ensures var first := DoLoadStore(c, right, Op.SWR, m);
            first.exn == OK && var second := DoLoadStore(c, left, Op.SWL, first.st);
            && second.exn == OK && second.st.core == m.core
            && BytesWritten(c, m.mem, second.st.mem, a, 4, Rt(left, m.core.g.r))
            && WordAt(c, second.st.mem, a) == Rt(left, m.core.g.r)
    ensures var first := DoLoadStore(c, left, Op.SWL, m);
            first.exn == OK && var second := DoLoadStore(c, right, Op.SWR, first.st);
            && second.exn == OK && second.st.core == m.core
            && BytesWritten(c, m.mem, second.st.mem, a, 4, Rt(left, m.core.g.r))
            && WordAt(c, second.st.mem, a) == Rt(left, m.core.g.r)
  {
    hide StoreLeft, StoreRight, WordAt, Op.FieldRs, Op.FieldRt, UImm, EffectiveAddress, BytesWritten;
    var mem, rt := m.mem, Rt(left, m.core.g.r);
    StorePair(c, mem, a, rt);
    BytesWrittenSize(c, mem, StoreLeft(c, StoreRight(c, mem, a, rt).value, a + 3, rt).value, a, 4, rt);
    BytesWrittenSize(c, mem, StoreRight(c, StoreLeft(c, mem, a + 3, rt).value, a, rt).value, a, 4, rt);
    ReadsBack(c, mem, StoreLeft(c, StoreRight(c, mem, a, rt).value, a + 3, rt).value, a, rt);
    ReadsBack(c, mem, StoreRight(c, StoreLeft(c, mem, a + 3, rt).value, a, rt).value, a, rt);
  }

  lemma BytesWrittenSize(c: Codec, mem: Ram, mem': Ram, a: Word, n: nat, v: Word)
    requires n <= 4 && BytesWritten(c, mem, mem', a, n, v)
    ensures |mem'| == |mem|
  {
  }
}
