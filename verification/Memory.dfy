/** Guest memory: an array of raw words, reached only through a pair of word hooks. */
module Memory {
  import opened Bits

  const LOWBASE := 0x1000
  const LOWBASE_INDEX := 0x400

  /** Execution exception codes. UNDEFINED stands for C undefined behaviour. */
  datatype Exn = OK | OVERFLOW | ADDRESS | INVALID | SYSCALL | BREAK | ABORT | UNDEFINED

  datatype Option<+T> = None | Some(value: T)

  /** The result of an operation that may throw. */
  datatype Res<+T> = Value(value: T) | Throw(exn: Exn) {
    predicate IsFailure() {
      Throw?
    }

    function PropagateFailure<U>(): Res<U>
      requires Throw?
    {
      Throw(exn)
    }

    function Extract(): T
      requires Value?
    {
      value
    }
  }

  /** Raw memory in words. The first LOWBASE_INDEX words hold the CPU control block. */
  type Ram = m: seq<Word> | 0x400 < |m| < 0x4000_0000 witness seq(0x401, _ => 0)

  function MemSize(mem: Ram): (n: Word)
    ensures n > LOWBASE
  {
    4 * |mem|
  }

  // ----- Word hooks -----

  /** The word transform behind the peek and poke hooks; it may depend on the address. */
  datatype Codec = Codec(enc: (nat, Word) -> Word, dec: (nat, Word) -> Word)

  const IDENTITY := Codec((a, w) => w, (a, w) => w)

  ghost predicate Sound(c: Codec) {
    forall a: nat, w: Word :: c.dec(a, c.enc(a, w)) == w
  }

  /** What the hooks ask of their callers: an aligned word address inside the guest's range. */
  predicate HookAddress(mem: Ram, a: nat) {
    LOWBASE <= a < MemSize(mem) && a % 4 == 0
  }

  function HookPeek(c: Codec, mem: Ram, a: nat): Word
    requires HookAddress(mem, a)
  {
    c.dec(a, mem[a / 4])
  }

  function HookPoke(c: Codec, mem: Ram, a: nat, v: Word): Ram
    requires HookAddress(mem, a)
  {
    mem[a / 4 := c.enc(a, v)]
  }

  /** The two memories agree on the words below LOWBASE, where the CPU state is kept. */
  ghost predicate SameControlBlock(a: Ram, b: Ram) {
    |a| == |b| && forall k :: 0 <= k < LOWBASE_INDEX ==> a[k] == b[k]
  }

  lemma HookPokeKeepsControlBlock(c: Codec, mem: Ram, a: nat, v: Word)
    requires HookAddress(mem, a)
    ensures SameControlBlock(mem, HookPoke(c, mem, a, v))
  {
  }

  // ----- Checked accesses -----

  /** The address check; `align` is one less than the required alignment. */
  predicate ValidAddress(mem: Ram, a: Word, align: nat) {
    LOWBASE <= a < MemSize(mem) && a % (align + 1) == 0
  }

  function PeekUb(c: Codec, mem: Ram, a: Word): Res<Byte> {
    if !ValidAddress(mem, a, 0) then Throw(ADDRESS)
    else Value(Shr(HookPeek(c, mem, a - a % 4), 8 * (a % 4)) % 0x100)
  }

  function PeekUh(c: Codec, mem: Ram, a: Word): Res<Half> {
    if !ValidAddress(mem, a, 1) then Throw(ADDRESS)
    else Value(Shr(HookPeek(c, mem, a - a % 4), 8 * (a % 4)) % 0x1_0000)
  }

  /** The signed variants, as the word the sign-extended result is stored in. */
  function PeekSb(c: Codec, mem: Ram, a: Word): Res<Word> {
    var b :- PeekUb(c, mem, a);
    Value(ToWord(SignedByte(b)))
  }

  function PeekSh(c: Codec, mem: Ram, a: Word): Res<Word> {
    var h :- PeekUh(c, mem, a);
    Value(ToWord(SignedHalf(h)))
  }

  function PeekUw(c: Codec, mem: Ram, a: Word): Res<Word> {
    if !ValidAddress(mem, a, 3) then Throw(ADDRESS) else Value(HookPeek(c, mem, a))
  }

  /** Replaces the bits of `m` shifted left by `n` in `w` with those of `v`. */
  function Insert(w: Word, m: Word, v: Word, n: nat): Word
    requires n < 32
  {
    Or(And(w, Not(Shl(m, n))), Shl(v, n))
  }

  function PokeUb(c: Codec, mem: Ram, a: Word, v: Byte): Res<Ram> {
    if !ValidAddress(mem, a, 0) then Throw(ADDRESS)
    else
      var s := a % 4;
      Value(HookPoke(c, mem, a - s, Insert(HookPeek(c, mem, a - s), 0xFF, v, 8 * s)))
  }

  function PokeUh(c: Codec, mem: Ram, a: Word, v: Half): Res<Ram> {
    if !ValidAddress(mem, a, 1) then Throw(ADDRESS)
    else
      var s := a % 4;
      Value(HookPoke(c, mem, a - s, Insert(HookPeek(c, mem, a - s), 0xFFFF, v, 8 * s)))
  }

  function PokeUw(c: Codec, mem: Ram, a: Word, v: Word): Res<Ram> {
    if !ValidAddress(mem, a, 3) then Throw(ADDRESS) else Value(HookPoke(c, mem, a, v))
  }

  // ----- The byte-addressed view -----

  predicate GuestByte(mem: Ram, a: int) {
    LOWBASE <= a < MemSize(mem)
  }

  /** Byte `a` of the flat little-endian memory the guest sees. */
  function ByteAt(c: Codec, mem: Ram, a: nat): Byte
    requires GuestByte(mem, a)
  {
    ByteOf(HookPeek(c, mem, a - a % 4), a % 4)
  }

  /** A byte or half-word read is the bytes at `a`; both faults are the address check alone. */
  lemma PeekUbReadsByte(c: Codec, mem: Ram, a: Word)
    ensures PeekUb(c, mem, a) == if GuestByte(mem, a) then Value(ByteAt(c, mem, a)) else Throw(ADDRESS)
  {
    if GuestByte(mem, a) {
      ShrBytes(HookPeek(c, mem, a - a % 4), a % 4, 0);
    }
  }

  lemma PeekUhReadsBytes(c: Codec, mem: Ram, a: Word)
    ensures PeekUh(c, mem, a) == if GuestByte(mem, a) && GuestByte(mem, a + 1) && a % 2 == 0
                                 then Value(ByteAt(c, mem, a) + 0x100 * ByteAt(c, mem, a + 1))
                                 else Throw(ADDRESS)
  {
    if GuestByte(mem, a) && a % 2 == 0 {
      SecondByte(c, mem, a);
      HalfAt(HookPeek(c, mem, a - a % 4), a % 4);
    }
  }

  lemma SecondByte(c: Codec, mem: Ram, a: nat)
    requires GuestByte(mem, a) && a % 2 == 0
    ensures a % 4 == 0 || a % 4 == 2
    ensures GuestByte(mem, a + 1)
    ensures ByteAt(c, mem, a + 1) == ByteOf(HookPeek(c, mem, a - a % 4), a % 4 + 1)
  {
    var q, s := a / 4, a % 4;
    assert a == 4 * q + s && a + 1 == 4 * q + (s + 1);
    assert s == 0 || s == 2;
    assert (a + 1) % 4 == s + 1;
  }

  lemma HalfAt(w: Word, s: nat)
    requires s == 0 || s == 2
    ensures Shr(w, 8 * s) % 0x1_0000 == ByteOf(w, s) + 0x100 * ByteOf(w, s + 1)
  {
    ShrBytes(w, s, 0);
    ShrBytes(w, s, 1);
    LowHalf(Shr(w, 8 * s));
  }

  lemma PeekUwReadsBytes(c: Codec, mem: Ram, a: Word)
    ensures PeekUw(c, mem, a) == if GuestByte(mem, a) && a % 4 == 0
                                 then Value(Join(ByteAt(c, mem, a), ByteAt(c, mem, a + 1),
                                                 ByteAt(c, mem, a + 2), ByteAt(c, mem, a + 3)))
                                 else Throw(ADDRESS)
  {
    hide ByteAt, ByteOf, HookPeek, Join;
    if GuestByte(mem, a) && a % 4 == 0 {
      JoinBytes(HookPeek(c, mem, a));
      ByteInWord(c, mem, a, 0);
      ByteInWord(c, mem, a, 1);
      ByteInWord(c, mem, a, 2);
      ByteInWord(c, mem, a, 3);
    }
  }

  /** The signed reads are the two's complement reading of the unsigned ones. */
  lemma SignedPeeks(c: Codec, mem: Ram, a: Word)
    ensures PeekSb(c, mem, a).Value? <==> PeekUb(c, mem, a).Value?
    ensures PeekSb(c, mem, a).Value? ==> Signed(PeekSb(c, mem, a).value) == SignedByte(PeekUb(c, mem, a).value)
    ensures PeekSh(c, mem, a).Value? <==> PeekUh(c, mem, a).Value?
    ensures PeekSh(c, mem, a).Value? ==> Signed(PeekSh(c, mem, a).value) == SignedHalf(PeekUh(c, mem, a).value)
  {
    hide PeekUb, PeekUh;
    match PeekUb(c, mem, a)
    case Value(b) => SignedToWord(SignedByte(b));
    case Throw(_) =>
    match PeekUh(c, mem, a)
    case Value(h) => SignedToWord(SignedHalf(h));
    case Throw(_) =>
  }

  lemma LowHalf(w: Word)
    ensures w % 0x1_0000 == ByteOf(w, 0) + 0x100 * ByteOf(w, 1)
  {
  }

  /** A poke of `n` bytes changes exactly those bytes, to the little-endian digits of `v`. */
  ghost predicate BytesWritten(c: Codec, mem: Ram, mem': Ram, a: Word, n: nat, v: Word)
    requires n <= 4
  {
    && SameControlBlock(mem, mem')
    && (forall b: nat {:trigger ByteAt(c, mem', b)} :: GuestByte(mem, b) ==>
         ByteAt(c, mem', b) == if a <= b < a + n then ByteOf(v, b - a) else ByteAt(c, mem, b))
  }

  ghost predicate KeepsControlBlock(mem: Ram, r: Res<Ram>) {
    r.Value? ==> SameControlBlock(mem, r.value)
  }

  lemma PokesKeepControlBlock(c: Codec, mem: Ram, a: Word, v: Word)
    ensures KeepsControlBlock(mem, PokeUb(c, mem, a, v % 0x100))
    ensures KeepsControlBlock(mem, PokeUh(c, mem, a, v % 0x1_0000))
    ensures KeepsControlBlock(mem, PokeUw(c, mem, a, v))
  {
  }

  lemma PokeUbWritesByte(c: Codec, mem: Ram, a: Word, v: Byte)
    requires Sound(c)
    ensures if ValidAddress(mem, a, 0)
            then PokeUb(c, mem, a, v).Value? && BytesWritten(c, mem, PokeUb(c, mem, a, v).value, a, 1, v)
            else PokeUb(c, mem, a, v) == Throw(ADDRESS)
  {
    hide Insert, ByteOf, HookPeek, HookPoke, BytesWritten;
    if ValidAddress(mem, a, 0) {
      var s := a % 4;
      var w := HookPeek(c, mem, a - s);
      InsertByte(w, v, s);
      WordWritten(c, mem, a - s, s, 1, Insert(w, 0xFF, v, 8 * s), v);
    }
  }

  lemma PokeUhWritesBytes(c: Codec, mem: Ram, a: Word, v: Half)
    requires Sound(c)
    ensures if ValidAddress(mem, a, 1)
            then PokeUh(c, mem, a, v).Value? && BytesWritten(c, mem, PokeUh(c, mem, a, v).value, a, 2, v)
            else PokeUh(c, mem, a, v) == Throw(ADDRESS)
  {
    hide Insert, ByteOf, HookPeek, HookPoke, BytesWritten;
    if ValidAddress(mem, a, 1) {
      var s := a % 4;
      var w := HookPeek(c, mem, a - s);
      InsertHalf(w, v, s);
      WordWritten(c, mem, a - s, s, 2, Insert(w, 0xFFFF, v, 8 * s), v);
    }
  }

  lemma PokeUwWritesBytes(c: Codec, mem: Ram, a: Word, v: Word)
    requires Sound(c)
    ensures if ValidAddress(mem, a, 3)
            then PokeUw(c, mem, a, v).Value? && BytesWritten(c, mem, PokeUw(c, mem, a, v).value, a, 4, v)
            else PokeUw(c, mem, a, v) == Throw(ADDRESS)
  {
    if ValidAddress(mem, a, 3) {
      WordWritten(c, mem, a, 0, 4, v, v);
    }
  }

  /** Writing through the hook a word whose bytes are right makes the whole byte view right. */
  lemma WordWritten(c: Codec, mem: Ram, base: nat, s: nat, n: nat, w: Word, v: Word)
    requires Sound(c) && HookAddress(mem, base) && s + n <= 4
    requires forall k: nat :: k < 4 ==>
               ByteOf(w, k) == if s <= k < s + n then ByteOf(v, k - s) else ByteOf(HookPeek(c, mem, base), k)
    ensures BytesWritten(c, mem, HookPoke(c, mem, base, w), base + s, n, v)
  {
    var mem' := HookPoke(c, mem, base, w);
    HookPokeKeepsControlBlock(c, mem, base, w);
    forall b: nat {:trigger ByteAt(c, mem', b)} | GuestByte(mem, b)
      ensures ByteAt(c, mem', b) == if base + s <= b < base + s + n then ByteOf(v, b - (base + s)) else ByteAt(c, mem, b)
    {
      ByteAfterPoke(c, mem, base, w, b);
      if base <= b < base + 4 {
        ByteInWord(c, mem, base, b - base);
      }
    }
  }

  lemma ByteInWord(c: Codec, mem: Ram, base: nat, k: nat)
    requires HookAddress(mem, base) && k < 4
    ensures GuestByte(mem, base + k) && ByteAt(c, mem, base + k) == ByteOf(HookPeek(c, mem, base), k)
  {
  }

  lemma ByteAfterPoke(c: Codec, mem: Ram, base: nat, w: Word, b: nat)
    requires Sound(c) && HookAddress(mem, base) && GuestByte(mem, b)
    ensures ByteAt(c, HookPoke(c, mem, base, w), b) ==
            if base <= b < base + 4 then ByteOf(w, b - base) else ByteAt(c, mem, b)
  {
    PeekAfterPoke(c, mem, base, w, b - b % 4);
  }

  lemma PeekAfterPoke(c: Codec, mem: Ram, a: nat, v: Word, b: nat)
    requires Sound(c) && HookAddress(mem, a) && HookAddress(mem, b)
    ensures HookPeek(c, HookPoke(c, mem, a, v), b) == if a == b then v else HookPeek(c, mem, b)
  {
    if a != b {
      assert a / 4 != b / 4;
    }
  }

  lemma InsertByte(w: Word, v: Byte, s: nat)
    requires s < 4
    ensures forall k: nat :: k < 4 ==>
              ByteOf(Insert(w, 0xFF, v, 8 * s), k) == if s <= k < s + 1 then ByteOf(v, k - s) else ByteOf(w, k)
  {
    forall k: nat | k < 4
      ensures ByteOf(Insert(w, 0xFF, v, 8 * s), k) == if s <= k < s + 1 then ByteOf(v, k - s) else ByteOf(w, k)
    {
      InsertAt(w, 0xFF, v, s, k);
    }
  }

  lemma InsertHalf(w: Word, v: Half, s: nat)
    requires s == 0 || s == 2
    ensures forall k: nat :: k < 4 ==>
              ByteOf(Insert(w, 0xFFFF, v, 8 * s), k) == if s <= k < s + 2 then ByteOf(v, k - s) else ByteOf(w, k)
  {
    forall k: nat | k < 4
      ensures ByteOf(Insert(w, 0xFFFF, v, 8 * s), k) == if s <= k < s + 2 then ByteOf(v, k - s) else ByteOf(w, k)
    {
      InsertAt(w, 0xFFFF, v, s, k);
    }
  }

  /** Byte `k` of an insertion at byte position `s`: masked-out bytes come from `v`, the others from `w`. */
  lemma InsertAt(w: Word, m: Word, v: Word, s: nat, k: nat)
    requires s < 4 && k < 4
    requires forall j: nat :: j < 4 ==> ByteOf(m, j) == 0xFF || (ByteOf(m, j) == 0 && ByteOf(v, j) == 0)
    ensures ByteOf(Insert(w, m, v, 8 * s), k) ==
            if s <= k && ByteOf(m, k - s) == 0xFF then ByteOf(v, k - s) else ByteOf(w, k)
  {
    InsertBytes(w, m, v, s, k);
    ByteMasks(ByteOf(w, k));
    if s <= k {
      ByteMasks(ByteOf(v, k - s));
    }
  }

  lemma InsertBytes(w: Word, m: Word, v: Word, s: nat, k: nat)
    requires s < 4 && k < 4
    ensures ByteOf(Insert(w, m, v, 8 * s), k) ==
            Bitwise(BitOp.OR, Bitwise(BitOp.AND, ByteOf(w, k), 0xFF - (if k < s then 0 else ByteOf(m, k - s))),
                              if k < s then 0 else ByteOf(v, k - s))
  {
    var n := 8 * s;
    ShlBytes(m, s, k);
    ShlBytes(v, s, k);
    NotBytes(Shl(m, n), k);
    BitwiseBytes(BitOp.AND, w, Not(Shl(m, n)), k);
    BitwiseBytes(BitOp.OR, And(w, Not(Shl(m, n))), Shl(v, n), k);
  }
}
