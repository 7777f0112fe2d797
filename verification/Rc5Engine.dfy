/** The cipher as it runs: loops over rounds and bytes of host buffers. */
module Rc5Engine {
  import opened Bits
  import opened Rc5

  /** The block stored at offset `i`. */
  function BlockAt(s: seq<Byte>, i: nat): Block
    requires i + 4 <= |s|
  {
    BlockOfBytes(s[i], s[i + 1], s[i + 2], s[i + 3])
  }

  /** A buffer with the block at offset `i` replaced. */
  function WithBlock(s: seq<Byte>, i: nat, x: Block): (s': seq<Byte>)
    requires i + 4 <= |s|
    ensures |s'| == |s|
  {
    s[..i] + BytesOfBlock(x) + s[i + 4..]
  }

  lemma WithBlockAt(s: seq<Byte>, i: nat, x: Block)
    requires i + 4 <= |s|
    ensures BlockAt(WithBlock(s, i, x), i) == x
  {
  }

  lemma WithSameBlock(s: seq<Byte>, i: nat, x: Block)
    requires i + 4 <= |s|
    ensures WithBlock(WithBlock(s, i, x), i, BlockAt(s, i)) == s
  {
  }

  method StoreBlock(dst: array<Byte>, i: nat, x: Block)
    requires i + 4 <= dst.Length
    modifies dst
    ensures dst[..] == WithBlock(old(dst[..]), i, x)
  {
    dst[i], dst[i + 1] := x.a % 0x100, x.a / 0x100;
    dst[i + 2], dst[i + 3] := x.b % 0x100, x.b / 0x100;
  }

  /** Encrypts the block at src[i..] into dst[j..]; the two may be the same place. */
  method EcbEncrypt(s: array<Half>, src: array<Byte>, i: nat, dst: array<Byte>, j: nat)
    requires s.Length == 26 && i + 4 <= src.Length && j + 4 <= dst.Length
    modifies dst
    ensures dst[..] == WithBlock(old(dst[..]), j, Encrypt(s[..], BlockAt(old(src[..]), i)))
  {
    hide Rol, Xor16, Add16, Pow2;
    var a: Half := Add16(Pack(src[i], src[i + 1]), s[0]);
    var b: Half := Add16(Pack(src[i + 2], src[i + 3]), s[1]);
    ghost var x := Block(a, b);
    for k := 1 to ROUNDS + 1
      invariant Block(a, b) == EncryptRounds(s[..], k - 1, x)
    {
      a := Add16(Rol(Xor16(a, b), b), s[2 * k]);
      b := Add16(Rol(Xor16(b, a), a), s[2 * k + 1]);
    }
    StoreBlock(dst, j, Block(a, b));
  }

  method EcbDecrypt(s: array<Half>, src: array<Byte>, i: nat, dst: array<Byte>, j: nat)
    requires s.Length == 26 && i + 4 <= src.Length && j + 4 <= dst.Length
    modifies dst
    ensures dst[..] == WithBlock(old(dst[..]), j, Decrypt(s[..], BlockAt(old(src[..]), i)))
  {
    hide Ror, Xor16, Sub16, Pow2;
    var b: Half := Pack(src[i + 2], src[i + 3]);
    var a: Half := Pack(src[i], src[i + 1]);
    ghost var x := Block(a, b);
    var k: nat := ROUNDS;
    while k > 0
      invariant k <= ROUNDS
      invariant DecryptRounds(s[..], ROUNDS, x) == DecryptRounds(s[..], k, Block(a, b))
    {
      b := Xor16(Ror(Sub16(b, s[2 * k + 1]), a), a);
      a := Xor16(Ror(Sub16(a, s[2 * k]), b), b);
      k := k - 1;
    }
    b := Sub16(b, s[1]);
    a := Sub16(a, s[0]);
    StoreBlock(dst, j, Block(a, b));
  }

  /** A block of a buffer encrypted and then decrypted, in place, gives the buffer back, and so does
      the other order. */
  lemma BufferRoundTrip(s: Table, buf: seq<Byte>, i: nat)
    requires i + 4 <= |buf|
    ensures var out := WithBlock(buf, i, Encrypt(s, BlockAt(buf, i)));
            WithBlock(out, i, Decrypt(s, BlockAt(out, i))) == buf
    ensures var out := WithBlock(buf, i, Decrypt(s, BlockAt(buf, i)));
            WithBlock(out, i, Encrypt(s, BlockAt(out, i))) == buf
  {
    hide Encrypt, Decrypt, BlockAt, WithBlock;
    var x := BlockAt(buf, i);
    CipherInverse(s, x);
    WithBlockAt(buf, i, Encrypt(s, x));
    WithBlockAt(buf, i, Decrypt(s, x));
    WithSameBlock(buf, i, Encrypt(s, x));
    WithSameBlock(buf, i, Decrypt(s, x));
  }

  // ----- The word hooks -----

  /** The transform behind the encrypting poke: the word's own bytes are encrypted in place. */
  method TransformOut(s: array<Half>, w: Word) returns (v: Word)
    requires s.Length == 26
    ensures v == EncryptWord(s[..], w)
  {
    hide Encrypt;
    var buf := new Byte[4];
    buf[0], buf[1], buf[2], buf[3] := ByteOf(w, 0), ByteOf(w, 1), ByteOf(w, 2), ByteOf(w, 3);
    JoinBytes(w);
    WordBytes(buf[0], buf[1], buf[2], buf[3], Encrypt(s[..], BlockOfWord(w)));
    EcbEncrypt(s, buf, 0, buf, 0);
    v := Join(buf[0], buf[1], buf[2], buf[3]);
  }

  method TransformIn(s: array<Half>, w: Word) returns (v: Word)
    requires s.Length == 26
    ensures v == DecryptWord(s[..], w)
  {
    hide Decrypt;
    var buf := new Byte[4];
    buf[0], buf[1], buf[2], buf[3] := ByteOf(w, 0), ByteOf(w, 1), ByteOf(w, 2), ByteOf(w, 3);
    JoinBytes(w);
    WordBytes(buf[0], buf[1], buf[2], buf[3], Decrypt(s[..], BlockOfWord(w)));
    EcbDecrypt(s, buf, 0, buf, 0);
    v := Join(buf[0], buf[1], buf[2], buf[3]);
  }
}
