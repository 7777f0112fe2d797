/** RC5 with 16-bit words, 12 rounds and a 128-bit key, after RFC 2040. */
module Rc5 {
  import opened Bits
  import opened Memory

  const ROUNDS: nat := 12

  /** The expanded key: 2 * (ROUNDS + 1) words. */
  type Table = s: seq<Half> | |s| == 26 witness seq(26, _ => 0)

  // ----- Half-word operations -----

  function Add16(x: Half, y: Half): Half { (x + y) % 0x1_0000 }
  function Sub16(x: Half, y: Half): Half { (x - y) % 0x1_0000 }

  function Xor16(x: Half, y: Half): Half {
    Pow2Bytes();
    BitwiseBound(BitOp.XOR, x, y, 16);
    Bitwise(BitOp.XOR, x, y)
  }

  function Or16(x: Half, y: Half): Half {
    Pow2Bytes();
    BitwiseBound(BitOp.OR, x, y, 16);
    Bitwise(BitOp.OR, x, y)
  }

  function Shl16(x: Half, n: nat): Half { x * Pow2(n) % 0x1_0000 }

  function Shr16(x: Half, n: nat): Half {
    DivBound(x, Pow2(n));
    x / Pow2(n)
  }

  function Pack(low: Byte, high: Byte): Half { low + 0x100 * high }

  /** Rotations take the amount modulo the word size. */
  function Rol(x: Half, n: Half): Half {
    var k := n % 16;
    Or16(Shl16(x, k), Shr16(x, 16 - k))
  }

  function Ror(x: Half, n: Half): Half {
    var k := n % 16;
    Or16(Shr16(x, k), Shl16(x, 16 - k))
  }

  /** A rotation exchanges the high `k` digits of a half-word with the low 16 - k. */
  lemma RolExchanges(h: nat, l: nat, k: nat)
    requires k <= 16 && h < Pow2(k) && l < Pow2(16 - k)
    ensures 0 <= Pow2(16 - k) * h + l < 0x1_0000 && 0 <= Pow2(k) * l + h < 0x1_0000
    ensures var x := Pow2(16 - k) * h + l;
            Or16(Shl16(x, k), Shr16(x, 16 - k)) == Pow2(k) * l + h
  {
    hide Pow2, Bitwise;
    Pow2Bytes();
    Pow2Add(k, 16 - k);
    var p, q := Pow2(k), Pow2(16 - k);
    Packed(p, q, h, l);
    Packed(q, p, l, h);
    var x := q * h + l;
    DivModUnique(x, q, h, l);
    ShiftedOut(p, q, h, l);
    DivModUnique(x * p, 0x1_0000, h, p * l);
    BitwiseConcat(BitOp.OR, k, l, 0, 0, h);
    BitwiseZero(BitOp.OR, l);
    BitwiseZero(BitOp.OR, h);
  }

  lemma Packed(p: nat, q: nat, h: nat, l: nat)
    requires p * q == 0x1_0000 && h < p && l < q
    ensures 0 <= q * h + l < 0x1_0000 && p * l < 0x1_0000
  {
    MulMono(q, h, p - 1);
    MulMono(p, l, q - 1);
    assert q * (p - 1) == p * q - q;
    assert p * (q - 1) == p * q - p;
  }

  lemma ShiftedOut(p: nat, q: nat, h: nat, l: nat)
    requires p * q == 0x1_0000
    ensures (q * h + l) * p == 0x1_0000 * h + p * l
  {
    assert (q * h + l) * p == (q * h) * p + l * p;
    assert (q * h) * p == (p * q) * h by {
      MulAssoc(p, q, h);
    }
  }

  lemma RolRor(x: Half, n: Half)
    ensures Ror(Rol(x, n), n) == x && Rol(Ror(x, n), n) == x
  {
    hide Pow2, Shl16, Shr16, Or16;
    var k := n % 16;
    var left := Rol(x, n);
    RotateBack(x, k);
    OrCommutes(Shl16(left, 16 - k), Shr16(left, k));
    RotateBack(x, 16 - k);
    OrCommutes(Shl16(x, 16 - k), Shr16(x, k));
  }

  lemma RotateBack(x: Half, k: nat)
    requires k <= 16
    ensures var y := Or16(Shl16(x, k), Shr16(x, 16 - k));
            Or16(Shl16(y, 16 - k), Shr16(y, k)) == x
  {
    hide Pow2, Shl16, Shr16, Or16;
    Pow2Bytes();
    Pow2Add(k, 16 - k);
    var p, q := Pow2(k), Pow2(16 - k);
    var h, l := x / q, x % q;
    assert x == q * h + l;
    HighPart(x, p, q);
    RolExchanges(h, l, k);
    RolExchanges(l, h, 16 - k);
  }

  lemma HighPart(x: nat, p: nat, q: nat)
    requires p * q == 0x1_0000 && x < 0x1_0000 && q > 0
    ensures x / q < p
  {
    assert x == q * (x / q) + x % q;
    if x / q >= p {
      MulMono(q, p, x / q);
    }
  }

  lemma OrCommutes(x: Half, y: Half)
    ensures Or16(x, y) == Or16(y, x)
  {
    BitwiseCommutes(BitOp.OR, x, y);
  }

  lemma {:induction false} BitwiseCommutes(op: BitOp, x: nat, y: nat)
    ensures Bitwise(op, x, y) == Bitwise(op, y, x)
    decreases x + y
  {
    if x > 0 || y > 0 {
      BitwiseCommutes(op, x / 2, y / 2);
    }
  }

  lemma SumCancels(x: Half, y: Half)
    ensures Sub16(Add16(x, y), y) == x && Add16(Sub16(x, y), y) == x
  {
  }

  // ----- The cipher -----

  datatype Block = Block(a: Half, b: Half)

  function EncryptRound(s: Table, i: nat, x: Block): Block
    requires i <= ROUNDS
  {
    var a := Add16(Rol(Xor16(x.a, x.b), x.b), s[2 * i]);
    Block(a, Add16(Rol(Xor16(x.b, a), a), s[2 * i + 1]))
  }

  function DecryptRound(s: Table, i: nat, x: Block): Block
    requires i <= ROUNDS
  {
    var b := Xor16(Ror(Sub16(x.b, s[2 * i + 1]), x.a), x.a);
    Block(Xor16(Ror(Sub16(x.a, s[2 * i]), b), b), b)
  }

  /** Rounds 1 to n. */
  function EncryptRounds(s: Table, n: nat, x: Block): Block
    requires n <= ROUNDS
  {
    if n == 0 then x else EncryptRound(s, n, EncryptRounds(s, n - 1, x))
  }

  /** Rounds n down to 1. */
  function DecryptRounds(s: Table, n: nat, x: Block): Block
    requires n <= ROUNDS
  {
    if n == 0 then x else DecryptRounds(s, n - 1, DecryptRound(s, n, x))
  }

  function Whiten(s: Table, x: Block): Block { Block(Add16(x.a, s[0]), Add16(x.b, s[1])) }
  function Unwhiten(s: Table, x: Block): Block { Block(Sub16(x.a, s[0]), Sub16(x.b, s[1])) }

  function Encrypt(s: Table, x: Block): Block {
    EncryptRounds(s, ROUNDS, Whiten(s, x))
  }

  function Decrypt(s: Table, x: Block): Block {
    Unwhiten(s, DecryptRounds(s, ROUNDS, x))
  }

  // ----- Decryption inverts encryption -----

  lemma XorTwice(x: Half, y: Half)
    ensures Xor16(Xor16(x, y), y) == x
  {
    hide Bitwise;
    XorCancel(x, y);
  }

  lemma RoundInverse(s: Table, i: nat, x: Block)
    requires i <= ROUNDS
    ensures DecryptRound(s, i, EncryptRound(s, i, x)) == x
    ensures EncryptRound(s, i, DecryptRound(s, i, x)) == x
  {
    RoundUndone(s, i, x);
    RoundRedone(s, i, x);
  }

  lemma RoundUndone(s: Table, i: nat, x: Block)
    requires i <= ROUNDS
    ensures DecryptRound(s, i, EncryptRound(s, i, x)) == x
  {
    hide Add16, Sub16, Xor16, Rol, Ror;
    var a := Add16(Rol(Xor16(x.a, x.b), x.b), s[2 * i]);
    SumCancels(Rol(Xor16(x.b, a), a), s[2 * i + 1]);
    RolRor(Xor16(x.b, a), a);
    XorTwice(x.b, a);
    SumCancels(Rol(Xor16(x.a, x.b), x.b), s[2 * i]);
    RolRor(Xor16(x.a, x.b), x.b);
    XorTwice(x.a, x.b);
  }

  lemma RoundRedone(s: Table, i: nat, x: Block)
    requires i <= ROUNDS
    ensures EncryptRound(s, i, DecryptRound(s, i, x)) == x
  {
    hide Add16, Sub16, Xor16, Rol, Ror;
    var b := Xor16(Ror(Sub16(x.b, s[2 * i + 1]), x.a), x.a);
    XorTwice(Ror(Sub16(x.a, s[2 * i]), b), b);
    RolRor(Sub16(x.a, s[2 * i]), b);
    SumCancels(x.a, s[2 * i]);
    XorTwice(Ror(Sub16(x.b, s[2 * i + 1]), x.a), x.a);
    RolRor(Sub16(x.b, s[2 * i + 1]), x.a);
    SumCancels(x.b, s[2 * i + 1]);
  }

  lemma {:induction false} RoundsInverse(s: Table, n: nat, x: Block)
    requires n <= ROUNDS
    ensures DecryptRounds(s, n, EncryptRounds(s, n, x)) == x
    ensures EncryptRounds(s, n, DecryptRounds(s, n, x)) == x
    decreases n
  {
    hide EncryptRound, DecryptRound;
    if n > 0 {
      RoundInverse(s, n, EncryptRounds(s, n - 1, x));
      RoundsInverse(s, n - 1, x);
      RoundsInverse(s, n - 1, DecryptRound(s, n, x));
      RoundInverse(s, n, x);
    }
  }

  /** For every key table, encryption and decryption are inverse permutations of the blocks. */
  lemma CipherInverse(s: Table, x: Block)
    ensures Decrypt(s, Encrypt(s, x)) == x
    ensures Encrypt(s, Decrypt(s, x)) == x
  {
    hide EncryptRounds, DecryptRounds;
    RoundsInverse(s, ROUNDS, Whiten(s, x));
    RoundsInverse(s, ROUNDS, x);
    var y := DecryptRounds(s, ROUNDS, x);
    SumCancels(x.a, s[0]);
    SumCancels(x.b, s[1]);
    SumCancels(y.a, s[0]);
    SumCancels(y.b, s[1]);
  }

  // ----- Blocks in memory -----

  /** The block stored in four bytes; on the little-endian host these are also the bytes of a word. */
  function BlockOfBytes(b0: Byte, b1: Byte, b2: Byte, b3: Byte): Block {
    Block(Pack(b0, b1), Pack(b2, b3))
  }

  function BytesOfBlock(x: Block): (s: seq<Byte>)
    ensures |s| == 4
  {
    [x.a % 0x100, x.a / 0x100, x.b % 0x100, x.b / 0x100]
  }

  function BlockOfWord(w: Word): Block { Block(w % 0x1_0000, w / 0x1_0000) }
  function WordOfBlock(x: Block): Word { x.a + 0x1_0000 * x.b }

  function EncryptWord(s: Table, w: Word): Word { WordOfBlock(Encrypt(s, BlockOfWord(w))) }
  function DecryptWord(s: Table, w: Word): Word { WordOfBlock(Decrypt(s, BlockOfWord(w))) }

  lemma WordBlockInverse(w: Word, x: Block)
    ensures WordOfBlock(BlockOfWord(w)) == w && BlockOfWord(WordOfBlock(x)) == x
  {
  }

  lemma WordBytes(b0: Byte, b1: Byte, b2: Byte, b3: Byte, x: Block)
    ensures BlockOfWord(Join(b0, b1, b2, b3)) == BlockOfBytes(b0, b1, b2, b3)
    ensures var s := BytesOfBlock(x); Join(s[0], s[1], s[2], s[3]) == WordOfBlock(x)
  {
  }

  /** Encryption permutes the 2^32 words: it is injective and onto. */
  lemma WordsPermuted(s: Table, w: Word)
    ensures DecryptWord(s, EncryptWord(s, w)) == w && EncryptWord(s, DecryptWord(s, w)) == w
  {
    hide Encrypt, Decrypt, WordOfBlock, BlockOfWord;
    CipherInverse(s, BlockOfWord(w));
    WordBlockInverse(w, Encrypt(s, BlockOfWord(w)));
    WordBlockInverse(w, Decrypt(s, BlockOfWord(w)));
  }

  /** The hooks that keep memory encrypted word by word. */
  function Rc5Codec(s: Table): Codec {
    Codec((a, w) => EncryptWord(s, w), (a, w) => DecryptWord(s, w))
  }

  lemma Rc5CodecSound(s: Table)
    ensures Sound(Rc5Codec(s))
  {
    hide EncryptWord, DecryptWord;
    forall a: nat, w: Word
      ensures Rc5Codec(s).dec(a, Rc5Codec(s).enc(a, w)) == w
    {
      WordsPermuted(s, w);
    }
  }
}
