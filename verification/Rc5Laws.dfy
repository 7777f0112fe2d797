/** The cipher and the key expansion as recurrences, in numbers and binary digits. */
module Rc5Laws {
  import opened Bits
  import opened Rc5
  import opened KeySchedule
  import E = Rc5Engine

  // ----- Rotations -----

  lemma BitOfConcat(h: nat, l: nat, m: nat, j: nat)
    requires l < Pow2(m)
    ensures 0 <= Pow2(m) * h + l
    ensures BitAt(Pow2(m) * h + l, j) == if j < m then BitAt(l, j) else BitAt(h, j - m)
  {
    hide BitAt, Pow2;
    var x := Pow2(m) * h + l;
    DivModUnique(x, Pow2(m), h, l);
    if j < m {
      BitOfRemainder(x, m, j);
    } else {
      BitOfQuotient(x, m, j - m);
    }
  }

  /** Where bit `k` of a half-word rotated left by `n` comes from. */
  function Source(k: nat, n: nat): (j: nat)
    requires k < 16
    ensures j < 16
  {
    (k + 16 - n % 16) % 16
  }

  /** `y` is the low half-word of `x` rotated left by `n`. */
  ghost predicate Rotated(y: Half, x: nat, n: nat) {
    forall k: nat {:trigger BitAt(y, k)} :: k < 16 ==> BitAt(y, k) == BitAt(x % 0x1_0000, Source(k, n))
  }

  /** A rotation by `m` exchanges the high `m` digits and the others. */
  lemma RolSplits(x: Half, n: Half, m: nat) returns (h: nat, l: nat)
    requires m == n % 16
    ensures h < Pow2(m) && l < Pow2(16 - m)
    ensures x == Pow2(16 - m) * h + l && Rol(x, n) == Pow2(m) * l + h
  {
    hide Pow2, Shl16, Shr16, Or16;
    Pow2Bytes();
    Pow2Add(m, 16 - m);
    h, l := x / Pow2(16 - m), x % Pow2(16 - m);
    assert x == Pow2(16 - m) * h + l;
    HighPart(x, Pow2(m), Pow2(16 - m));
    RolExchanges(h, l, m);
  }

  lemma RolBit(x: Half, n: Half, k: nat)
    requires k < 16
    ensures BitAt(Rol(x, n), k) == BitAt(x, Source(k, n))
  {
    hide BitAt, Pow2, Rol;
    var m := n % 16;
    var h, l := RolSplits(x, n, m);
    BitOfConcat(l, h, m, k);
    BitOfConcat(h, l, 16 - m, Source(k, n));
    SourceOf(k, n);
  }

  lemma SourceOf(k: nat, n: nat)
    requires k < 16
    ensures Source(k, n) == if k < n % 16 then k + 16 - n % 16 else k - n % 16
  {
  }

  lemma RolRotates(x: Half, n: Half)
    ensures Rotated(Rol(x, n), x, n)
  {
    hide BitAt, Rol, Source;
    forall k: nat {:trigger BitAt(Rol(x, n), k)} | k < 16
      ensures BitAt(Rol(x, n), k) == BitAt(x, Source(k, n))
    {
      RolBit(x, n, k);
    }
  }

  lemma {:induction false} BitsDetermine(x: nat, y: nat, m: nat)
    requires x < Pow2(m) && y < Pow2(m)
    requires forall k: nat {:trigger BitAt(x, k)} :: k < m ==> BitAt(x, k) == BitAt(y, k)
    ensures x == y
    decreases m
  {
    if m > 0 {
      assert BitAt(x, 0) == BitAt(y, 0);
      forall k: nat {:trigger BitAt(x / 2, k)} | k < m - 1
        ensures BitAt(x / 2, k) == BitAt(y / 2, k)
      {
        assert BitAt(x, k + 1) == BitAt(y, k + 1);
      }
      BitsDetermine(x / 2, y / 2, m - 1);
    }
  }

  // ----- The cipher -----

  /** The little-endian number of two bytes. */
  function Number(low: Byte, high: Byte): nat {
    var l: int, h: int := low, high;
    l + 0x100 * h
  }

  /** One half-round: what is added to the subkey is the exclusive or of the two half-words before,
      rotated left by the later one. */
  ghost predicate HalfRound(earlier: Half, later: Half, subkey: Half, after: Half) {
    forall k: nat {:trigger Source(k, later)} :: k < 16 ==>
      BitAt((after - subkey) % 0x1_0000, k) ==
      (BitAt(earlier, Source(k, later)) + BitAt(later, Source(k, later))) % 2
  }

  /** The half-words the cipher goes through from the halves `x` and `y` of a block. */
  ghost predicate CipherTrail(s: Table, x: nat, y: nat, h: seq<Half>) {
    && |h| == 26
    && h[0] == (x + s[0]) % 0x1_0000 && h[1] == (y + s[1]) % 0x1_0000
    && forall j :: 2 <= j < 26 ==> HalfRound(h[j - 2], h[j - 1], s[j], h[j])
  }

  lemma HalfRoundIs(earlier: Half, later: Half, subkey: Half)
    ensures HalfRound(earlier, later, subkey, Add16(Rol(Xor16(earlier, later), later), subkey))
  {
    hide BitAt, Rol, Xor16, Add16, Source;
    var x := Xor16(earlier, later);
    SumUndone(Rol(x, later), subkey);
    forall k: nat {:trigger Source(k, later)} | k < 16
      ensures BitAt(Rol(x, later), k) == (BitAt(earlier, Source(k, later)) + BitAt(later, Source(k, later))) % 2
    {
      HalfRoundBit(earlier, later, k);
    }
  }

  lemma SumUndone(x: Half, y: Half)
    ensures (Add16(x, y) - y) % 0x1_0000 == x
  {
    SumCancels(x, y);
  }

  lemma HalfRoundBit(earlier: Half, later: Half, k: nat)
    requires k < 16
    ensures BitAt(Rol(Xor16(earlier, later), later), k) ==
            (BitAt(earlier, Source(k, later)) + BitAt(later, Source(k, later))) % 2
  {
    hide BitAt, Rol, Bitwise, Source;
    var x, j := Xor16(earlier, later), Source(k, later);
    RolRotates(x, later);
    assert BitAt(Rol(x, later), k) == BitAt(x, j);
    BitOfBitwise(BitOp.XOR, earlier, later, j);
    BitBelow2(earlier, j);
    BitBelow2(later, j);
  }

  lemma {:induction false} RoundsTrail(s: Table, x: Block, n: nat) returns (h: seq<Half>)
    requires n <= ROUNDS
    ensures |h| == 2 * n + 2 && h[0] == x.a && h[1] == x.b
    ensures EncryptRounds(s, n, x) == Block(h[2 * n], h[2 * n + 1])
    ensures forall j :: 2 <= j < |h| ==> HalfRound(h[j - 2], h[j - 1], s[j], h[j])
    decreases n
  {
    hide HalfRound, Rol, Xor16, Add16;
    if n == 0 {
      h := [x.a, x.b];
    } else {
      var g := RoundsTrail(s, x, n - 1);
      var y := EncryptRounds(s, n - 1, x);
      var z := EncryptRound(s, n, y);
      HalfRoundIs(y.a, y.b, s[2 * n]);
      HalfRoundIs(y.b, z.a, s[2 * n + 1]);
      h := g + [z.a, z.b];
    }
  }

  lemma EncryptTrail(s: Table, x: Block) returns (h: seq<Half>)
    ensures |h| == 26 && CipherTrail(s, x.a, x.b, h) && Encrypt(s, x) == Block(h[24], h[25])
  {
    hide HalfRound, EncryptRounds;
    h := RoundsTrail(s, Whiten(s, x), 12);
  }

  lemma BlockBytes(src: seq<Byte>, i: nat, dst: seq<Byte>, j: nat, x: Block)
    requires i + 4 <= |src| && j + 4 <= |dst|
    ensures E.BlockAt(src, i).a == Number(src[i], src[i + 1]) && E.BlockAt(src, i).b == Number(src[i + 2], src[i + 3])
    ensures var out := E.WithBlock(dst, j, x);
            && out[j] == x.a % 0x100 && out[j + 1] == x.a / 0x100
            && out[j + 2] == x.b % 0x100 && out[j + 3] == x.b / 0x100
            && forall p :: 0 <= p < |dst| && !(j <= p < j + 4) ==> out[p] == dst[p]
  {
  }

  /** Encrypting a block of `src` into `dst`: there is such a trail from the two little-endian half-words of
      the source bytes, and its last two half-words are the bytes written; the others are kept. */
  lemma BlockRecurrence(s: Table, src: seq<Byte>, i: nat, dst: seq<Byte>, j: nat) returns (h: seq<Half>)
    requires i + 4 <= |src| && j + 4 <= |dst|
    ensures |h| == 26 && CipherTrail(s, Number(src[i], src[i + 1]), Number(src[i + 2], src[i + 3]), h)
    ensures var out := E.WithBlock(dst, j, Encrypt(s, E.BlockAt(src, i)));
            && out[j] == h[24] % 0x100 && out[j + 1] == h[24] / 0x100
            && out[j + 2] == h[25] % 0x100 && out[j + 3] == h[25] / 0x100
            && forall p :: 0 <= p < |dst| && !(j <= p < j + 4) ==> out[p] == dst[p]
  {
    hide CipherTrail, Encrypt, E.BlockAt, E.WithBlock;
    h := EncryptTrail(s, E.BlockAt(src, i));
    BlockBytes(src, i, dst, j, Encrypt(s, E.BlockAt(src, i)));
  }

  /** The same for a word in memory; decrypting leads back. */
  lemma WordRecurrence(s: Table, w: Word) returns (h: seq<Half>)
    ensures |h| == 26 && CipherTrail(s, w % 0x1_0000, w / 0x1_0000, h)
    ensures var low: int, high: int := h[24], h[25];
            EncryptWord(s, w) == low + 0x1_0000 * high && DecryptWord(s, EncryptWord(s, w)) == w
  {
    hide CipherTrail, Encrypt, DecryptWord;
    h := EncryptTrail(s, BlockOfWord(w));
    WordsPermuted(s, w);
  }

  /** There is only one trail, so this determines the cipher. */
  lemma TrailUnique(s: Table, x: nat, y: nat, h: seq<Half>, g: seq<Half>)
    requires CipherTrail(s, x, y, h) && CipherTrail(s, x, y, g)
    ensures h == g
  {
    TrailPrefix(s, x, y, h, g, 26);
  }

  lemma {:induction false} TrailPrefix(s: Table, x: nat, y: nat, h: seq<Half>, g: seq<Half>, n: nat)
    requires CipherTrail(s, x, y, h) && CipherTrail(s, x, y, g) && n <= 26
    ensures h[..n] == g[..n]
    decreases n
  {
    hide HalfRound;
    if n > 0 {
      TrailPrefix(s, x, y, h, g, n - 1);
      if n > 2 {
        var j := n - 1;
        assert h[j - 2] == h[..j][j - 2] == g[..j][j - 2] && h[j - 1] == h[..j][j - 1] == g[..j][j - 1];
        HalfRoundUnique(h[j - 2], h[j - 1], s[j], h[j], g[j]);
      }
      assert h[..n] == h[..n - 1] + [h[n - 1]] && g[..n] == g[..n - 1] + [g[n - 1]];
    }
  }

  lemma HalfRoundUnique(earlier: Half, later: Half, subkey: Half, after: Half, after': Half)
    requires HalfRound(earlier, later, subkey, after) && HalfRound(earlier, later, subkey, after')
    ensures after == after'
  {
    hide BitAt, Pow2;
    Pow2Bytes();
    var x, y := (after - subkey) % 0x1_0000, (after' - subkey) % 0x1_0000;
    forall k: nat {:trigger BitAt(x, k)} | k < 16
      ensures BitAt(x, k) == BitAt(y, k)
    {
      assert Source(k, later) < 16;
    }
    BitsDetermine(x, y, 16);
  }

  // ----- The key expansion -----

  /** The magic constants are the odd integers nearest below (e - 2) * 2^16 and (phi - 1) * 2^16. For phi - 1
      that is read off its equation z^2 + z = 1. For e - 2, which is the sum of 1 / k! for k >= 2, the terms
      up to 1 / 9! are 260650 / 362880 and the rest is less than 1 / (9 * 9!). */
  lemma MagicConstants()
    ensures var first: int, second: int := FilledS()[0], FilledS()[1]; var q := (second - first) % 0x1_0000;
            q % 2 == 1 && q * q + q * 0x1_0000 < 0x1_0000 * 0x1_0000 < (q + 1) * (q + 1) + (q + 1) * 0x1_0000
    ensures var p: int := FilledS()[0];
            && p % 2 == 1
            && p * 362880 < 0x1_0000 * 260650
            && 0x1_0000 * (9 * 260650 + 1) < (p + 1) * 9 * 362880
    ensures FilledS()[0] == 0xB7E1
    ensures forall k :: 0 <= k < 25 ==> FillStep(FilledS()[k], FilledS()[k + 1])
  {
    forall k | 0 <= k < 25
      ensures FillStep(FilledS()[k], FilledS()[k + 1])
    {
      NextMagic(k);
    }
    MagicStart();
    NextMagic(0);
  }

  predicate FillStep(word: int, next: int) {
    next == (word + 0x9E37) % 0x1_0000
  }

  /** The half-words stored in S and L by the 78 mixing steps: each is the one its slot held, 26 or 8 steps
      before or from the fill, plus the ones last stored, rotated. */
  ghost predicate ExpansionTrail(key: Key, a: seq<Half>, b: seq<Half>) {
    |a| == |b| == 78 && forall n :: 0 <= n < 78 ==> MixedAt(key, a, b, n)
  }

  ghost predicate MixedAt(key: Key, a: seq<Half>, b: seq<Half>, n: nat)
    requires n < 78 && |a| == |b| == 78
  {
    var lastA: int, lastB: int := if n == 0 then 0 else a[n - 1], if n == 0 then 0 else b[n - 1];
    var inS: int := if n < 26 then 0xB7E1 + n * 0x9E37 else a[n - 26];
    var inL: int := if n < 8 then Number(key[2 * n], key[2 * n + 1]) else b[n - 8];
    Rotated(a[n], inS + lastA + lastB, 3) && Rotated(b[n], inL + a[n] + lastB, a[n] + lastB)
  }

  lemma SumOfThree(x: Half, y: Half, z: Half)
    ensures Add16(Add16(x, y), z) == (0 + x + y + z) % 0x1_0000
  {
  }

  lemma SourceModulo(k: nat, n: nat)
    requires k < 16
    ensures Source(k, n % 0x1_0000) == Source(k, n)
  {
    var q, r := n / 0x1_0000, n % 0x1_0000;
    DivModUnique(n, 16, 0x1000 * q + r / 16, r % 16);
  }

  lemma RolOfSum(x: Half, y: Half, z: Half, n: nat)
    ensures Rotated(Rol(Add16(Add16(x, y), z), n % 0x1_0000), 0 + x + y + z, n)
  {
    hide Rol, BitAt, Add16, Source;
    var sum := Add16(Add16(x, y), z);
    SumOfThree(x, y, z);
    RolRotates(sum, n % 0x1_0000);
    forall k: nat {:trigger BitAt(Rol(sum, n % 0x1_0000), k)} | k < 16
      ensures BitAt(Rol(sum, n % 0x1_0000), k) == BitAt(sum, Source(k, n))
    {
      SourceModulo(k, n);
    }
  }

  lemma {:induction false} SlotKeptL(s: Table, l: KeyWords, k: nat, first: nat, last: nat)
    requires k < 8 && first <= last && forall n :: first <= n < last ==> n % 8 != k
    ensures MixSteps(Start(s, l), last).l[k] == MixSteps(Start(s, l), first).l[k]
    decreases last
  {
    hide MixSteps;
    if first != last {
      MixTouches(s, l, last - 1, k);
      SlotKeptL(s, l, k, first, last - 1);
    }
  }

  /** What step `n` finds in its slot of S, and in its slot of L. */
  lemma FoundInS(s: Table, l: KeyWords, n: nat)
    ensures MixSteps(Start(s, l), n).s[n % 26] == if n < 26 then s[n] else MixSteps(Start(s, l), n - 25).a
  {
    hide MixSteps;
    StartSlots(s, l);
    if n < 26 {
      SlotKept(s, l, n, 0, n);
    } else {
      SameResidue(n, 26);
      StoredA(s, l, n - 26);
      SlotKept(s, l, n % 26, n - 25, n);
    }
  }

  lemma FoundInL(s: Table, l: KeyWords, n: nat)
    ensures MixSteps(Start(s, l), n).l[n % 8] == if n < 8 then l[n] else MixSteps(Start(s, l), n - 7).b
  {
    hide MixSteps;
    StartSlots(s, l);
    if n < 8 {
      SlotKeptL(s, l, n, 0, n);
    } else {
      SameResidue(n, 8);
      MixTrail(s, l, n - 7);
      SlotKeptL(s, l, n % 8, n - 7, n);
    }
  }

  lemma SameResidue(n: nat, d: nat)
    requires 0 < d <= n
    ensures (n - d) % d == n % d
    ensures forall i :: n - d < i < n ==> i % d != n % d
  {
    var q, r := n / d, n % d;
    assert n == d * q + r;
    assert d * (q - 1) == d * q - d;
    DivModUnique(n - d, d, q - 1, r);
    forall i | n - d < i < n
      ensures i % d != r
    {
      NoMultipleBetween(n, d, q, r, i);
    }
  }

  lemma NoMultipleBetween(n: nat, d: nat, q: int, r: nat, i: nat)
    requires d > 0 && n == d * q + r && d * (q - 1) == d * q - d && n - d < i < n
    ensures i % d != r
  {
    var p := i / d;
    assert i == d * p + i % d;
    if i % d == r {
      if p >= q {
        MulMono(d, q, p);
      } else {
        MulMono(d, p, q - 1);
      }
    }
  }

  function StoredAs(s: Table, l: KeyWords, n: nat): Half { MixSteps(Start(s, l), n + 1).a }
  function StoredBs(s: Table, l: KeyWords, n: nat): Half { MixSteps(Start(s, l), n + 1).b }

  /** The expanded key is a recurrence over the half-words stored: its word `k` is the one stored in S by
      step 52 + k. */
  lemma ExpansionRecurrence(key: Key) returns (a: seq<Half>, b: seq<Half>)
    ensures ExpansionTrail(key, a, b)
    ensures forall k :: 0 <= k < 26 ==> Expand(key)[k] == a[52 + k]
  {
    hide MixSteps, MixedAt, FilledS, FilledL;
    var s, l := FilledS(), FilledL(key);
    a := seq(78, n requires 0 <= n => StoredAs(s, l, n));
    b := seq(78, n requires 0 <= n => StoredBs(s, l, n));
    forall n | 0 <= n < 78
      ensures MixedAt(key, a, b, n)
    {
      StepMixes(key, a, b, n);
    }
    forall k | 0 <= k < 26
      ensures Expand(key)[k] == a[52 + k]
    {
      EachSlotThrice(s, l, k);
    }
  }

  lemma StepMixes(key: Key, a: seq<Half>, b: seq<Half>, n: nat)
    requires n < 78 && |a| == |b| == 78
    requires forall i: nat :: i < 78 ==> a[i] == StoredAs(FilledS(), FilledL(key), i)
    requires forall i: nat :: i < 78 ==> b[i] == StoredBs(FilledS(), FilledL(key), i)
    ensures MixedAt(key, a, b, n)
  {
    hide MixSteps, Rotated, FilledS, FilledL, StoredAs, StoredBs;
    var s, l := FilledS(), FilledL(key);
    var x := MixSteps(Start(s, l), n);
    LastStored(s, l, n);
    var inS := InS(s, l, n);
    var inL := InL(key, s, l, n);
    StepRotates(s, l, n, a[n]);
    RotatedModulo(a[n], 0 + x.s[n % 26] + x.a + x.b, 0 + inS + x.a + x.b, 3);
    assert a[n] == StoredAs(s, l, n) && b[n] == StoredBs(s, l, n);
  }

  /** What the slots of step `n` hold, up to multiples of 2^16. */
  lemma InS(s: Table, l: KeyWords, n: nat) returns (inS: nat)
    requires s == FilledS()
    ensures inS == if n < 26 then 0xB7E1 + n * 0x9E37 else StoredAs(s, l, n - 26)
    ensures inS % 0x1_0000 == MixSteps(Start(s, l), n).s[n % 26]
  {
    hide MixSteps, FilledS;
    FoundInS(s, l, n);
    inS := if n < 26 then 0xB7E1 + n * 0x9E37 else StoredAs(s, l, n - 26);
    if n < 26 {
      FilledSIs(n);
    }
  }

  lemma InL(key: Key, s: Table, l: KeyWords, n: nat) returns (inL: nat)
    requires l == FilledL(key)
    ensures inL == if n < 8 then Number(key[2 * n], key[2 * n + 1]) else StoredBs(s, l, n - 8)
    ensures inL == MixSteps(Start(s, l), n).l[n % 8]
  {
    hide MixSteps, FilledL;
    FoundInL(s, l, n);
    inL := MixSteps(Start(s, l), n).l[n % 8];
    if n < 8 {
      FilledLIs(key, n);
    }
  }

  lemma StepRotates(s: Table, l: KeyWords, n: nat, stored: Half)
    requires stored == StoredAs(s, l, n)
    ensures var x := MixSteps(Start(s, l), n);
            && Rotated(stored, 0 + x.s[n % 26] + x.a + x.b, 3)
            && Rotated(StoredBs(s, l, n), 0 + x.l[n % 8] + stored + x.b, 0 + stored + x.b)
  {
    hide MixSteps, Rol, Rotated, StoredAs, StoredBs;
    var x := MixSteps(Start(s, l), n);
    StepStores(s, l, n);
    RolOfSum(x.s[n % 26], x.a, x.b, 3);
    RolOfSum(x.l[n % 8], stored, x.b, 0 + stored + x.b);
  }

  lemma LastStored(s: Table, l: KeyWords, n: nat)
    ensures var x := MixSteps(Start(s, l), n);
            && x.a == (if n == 0 then 0 else StoredAs(s, l, n - 1))
            && x.b == (if n == 0 then 0 else StoredBs(s, l, n - 1))
  {
    hide MixStep;
    StartSlots(s, l);
  }

  lemma StepStores(s: Table, l: KeyWords, n: nat)
    ensures var x := MixSteps(Start(s, l), n); var stored := StoredAs(s, l, n);
            && x.i == n % 26 && x.j == n % 8
            && stored == Rol(Add16(Add16(x.s[x.i], x.a), x.b), 3)
            && StoredBs(s, l, n) == Rol(Add16(Add16(x.l[x.j], stored), x.b), (0 + stored + x.b) % 0x1_0000)
  {
    hide Rol;
    MixTrail(s, l, n);
  }

  lemma FilledSIs(n: nat)
    requires n < 26
    ensures FilledS()[n] == (0xB7E1 + n * 0x9E37) % 0x1_0000
  {
  }

  lemma FilledLIs(key: Key, n: nat)
    requires n < 8
    ensures FilledL(key)[n] == Number(key[2 * n], key[2 * n + 1])
  {
  }

  lemma RotatedModulo(y: Half, x: nat, x': nat, n: nat)
    requires x % 0x1_0000 == x' % 0x1_0000 && Rotated(y, x, n)
    ensures Rotated(y, x', n)
  {
    hide BitAt;
  }

  /** The first mixing step stores the same word for every key. */
  lemma FirstMix(key: Key)
    ensures MixSteps(Start(FilledS(), FilledL(key)), 1).s[0] == 0xBF0D
  {
    hide Shl16, Shr16, Or16, FilledL;
    assert Pow2(3) == 8;
    assert Pow2(10) == 0x400;
    assert Pow2(13) == 0x2000;
    RolExchanges(5, 0x17E1, 3);
    assert FilledS()[0] == 0xB7E1;
  }
}
