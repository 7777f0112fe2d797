/** State words as bounded integers, with the C operators the interpreter applies to them.
    Arithmetic wraps explicitly; `&`, `|` and `^` are defined on binary digits. */
module Bits {

  const WORD: int := 0x1_0000_0000

  type Word = n: int | 0 <= n < 0x1_0000_0000
  type Half = n: int | 0 <= n < 0x1_0000
  type Byte = n: int | 0 <= n < 0x100

  const ALL_ONES: Word := 0xFFFF_FFFF

  // ----- Conversions -----

  /** Conversion to an unsigned 32-bit type. */
  function ToWord(n: int): Word {
    n % WORD
  }

  /** The signed reading of a word. */
  function Signed(x: Word): int {
    if x < 0x8000_0000 then x else x - WORD
  }

  function SignedHalf(x: Half): int {
    if x < 0x8000 then x else x - 0x1_0000
  }

  function SignedByte(x: Byte): int {
    if x < 0x80 then x else x - 0x100
  }

  function Abs(n: int): nat {
    if n < 0 then -n else n
  }

  /** The integers a word can hold when it is read as signed. */
  predicate FitsSigned(n: int) {
    -0x8000_0000 <= n < 0x8000_0000
  }

  lemma SignedToWord(n: int)
    ensures Signed(ToWord(n)) == n <==> FitsSigned(n)
  {
  }

  lemma ToWordTwice(n: int, k: int)
    ensures ToWord(ToWord(n) + k) == ToWord(n + k)
  {
  }

  // ----- Shifts -----

  function Pow2(k: nat): (p: nat)
    ensures p > 0
  {
    if k == 0 then 1 else 2 * Pow2(k - 1)
  }

  lemma Pow2Bytes()
    ensures Pow2(8) == 0x100 && Pow2(16) == 0x1_0000 && Pow2(24) == 0x100_0000 && Pow2(32) == WORD
  {
    assert Pow2(4) == 16;
    assert Pow2(8) == 0x100;
    assert Pow2(12) == 0x1000;
    assert Pow2(16) == 0x1_0000;
    assert Pow2(20) == 0x10_0000;
    assert Pow2(24) == 0x100_0000;
    assert Pow2(28) == 0x1000_0000;
  }

  lemma {:induction false} Pow2Add(a: nat, b: nat)
    ensures Pow2(a + b) == Pow2(a) * Pow2(b)
  {
    if a > 0 {
      Pow2Add(a - 1, b);
      assert Pow2(a - 1) * Pow2(b) * 2 == Pow2(a) * Pow2(b);
    }
  }

  function Shl(x: Word, n: nat): Word
    requires n < 32
  {
    x * Pow2(n) % WORD
  }

  function Shr(x: Word, n: nat): (r: Word)
    requires n < 32
  {
    DivBound(x, Pow2(n));
    x / Pow2(n)
  }

  /** `>>` on a signed operand: rounds towards minus infinity. */
  function Sra(x: Word, n: nat): Word
    requires n < 32
  {
    ToWord(Signed(x) / Pow2(n))
  }

  lemma DivBound(x: nat, d: nat)
    requires d > 0
    ensures 0 <= x / d <= x
  {
    MulMono(x / d, 1, d);
  }

  lemma MulMono(c: nat, a: int, b: int)
    requires a <= b
    ensures c * a <= c * b
  {
  }

  // ----- Bitwise operators -----

  datatype BitOp = AND | OR | XOR

  function Digit(op: BitOp, a: nat, b: nat): (d: nat)
    ensures d < 2
  {
    match op
    case AND => if a == 1 && b == 1 then 1 else 0
    case OR => if a == 1 || b == 1 then 1 else 0
    case XOR => if a != b then 1 else 0
  }

  function Bitwise(op: BitOp, x: nat, y: nat): nat
    decreases x + y
  {
    if x == 0 && y == 0 then 0 else 2 * Bitwise(op, x / 2, y / 2) + Digit(op, x % 2, y % 2)
  }

  lemma {:induction false} BitwiseBound(op: BitOp, x: nat, y: nat, k: nat)
    requires x < Pow2(k) && y < Pow2(k)
    ensures Bitwise(op, x, y) < Pow2(k)
    decreases k
  {
    if k > 0 {
      BitwiseBound(op, x / 2, y / 2, k - 1);
    }
  }

  function And(x: Word, y: Word): Word {
    Pow2Bytes();
    BitwiseBound(AND, x, y, 32);
    Bitwise(AND, x, y)
  }

  function Or(x: Word, y: Word): Word {
    Pow2Bytes();
    BitwiseBound(OR, x, y, 32);
    Bitwise(OR, x, y)
  }

  function Xor(x: Word, y: Word): Word {
    Pow2Bytes();
    BitwiseBound(XOR, x, y, 32);
    Bitwise(XOR, x, y)
  }

  function Not(x: Word): Word {
    ALL_ONES - x
  }

  /** A bitwise operator acts on the low `k` digits and on the remaining ones separately. */
  lemma {:induction false} BitwiseConcat(op: BitOp, k: nat, xh: nat, xl: nat, yh: nat, yl: nat)
    requires xl < Pow2(k) && yl < Pow2(k)
    ensures Pow2(k) * xh >= 0 && Pow2(k) * yh >= 0
    ensures Bitwise(op, Pow2(k) * xh + xl, Pow2(k) * yh + yl) ==
            Pow2(k) * Bitwise(op, xh, yh) + Bitwise(op, xl, yl)
    decreases k
  {
    if k > 0 {
      var q := Pow2(k - 1);
      BitwiseConcat(op, k - 1, xh, xl / 2, yh, yl / 2);
      var x, y := Pow2(k) * xh + xl, Pow2(k) * yh + yl;
      MulAssoc(2, q, xh);
      MulAssoc(2, q, yh);
      MulAssoc(2, q, Bitwise(op, xh, yh));
      HalfOf(x, q * xh, xl);
      HalfOf(y, q * yh, yl);
      BitwiseStep(op, x, y);
      BitwiseStep(op, xl, yl);
    }
  }

  lemma HalfOf(x: nat, h: int, l: nat)
    requires x == 2 * h + l
    ensures x / 2 == h + l / 2 && x % 2 == l % 2
  {
  }

  lemma BitwiseStep(op: BitOp, x: nat, y: nat)
    ensures Bitwise(op, x, y) == 2 * Bitwise(op, x / 2, y / 2) + Digit(op, x % 2, y % 2)
  {
  }

  lemma MulAssoc(a: int, b: int, c: int)
    ensures (a * b) * c == a * (b * c)
  {
  }

  lemma DivModUnique(x: int, d: nat, q: int, r: nat)
    requires d > 0 && r < d && x == d * q + r
    ensures x / d == q && x % d == r
  {
    var q', r' := x / d, x % d;
    assert x == d * q' + r';
    if q' > q {
      MulMono(d, q + 1, q');
    } else if q' < q {
      MulMono(d, q' + 1, q);
    }
  }

  lemma {:induction false} BitwiseZero(op: BitOp, x: nat)
    ensures Bitwise(op, x, 0) == Bitwise(op, 0, x) == if op == AND then 0 else x
    decreases x
  {
    if x > 0 {
      BitwiseZero(op, x / 2);
    }
  }

  lemma {:induction false} AndMask(x: nat, k: nat)
    requires x < Pow2(k)
    ensures Bitwise(AND, x, Pow2(k) - 1) == x
    decreases k
  {
    if k > 0 {
      AndMask(x / 2, k - 1);
      assert (Pow2(k) - 1) / 2 == Pow2(k - 1) - 1;
    }
  }

  lemma {:induction false} XorCancel(x: nat, y: nat)
    ensures Bitwise(XOR, Bitwise(XOR, x, y), y) == x
    decreases x + y
  {
    if x > 0 || y > 0 {
      XorCancel(x / 2, y / 2);
      var z := Bitwise(XOR, x, y);
      assert z / 2 == Bitwise(XOR, x / 2, y / 2) && z % 2 == Digit(XOR, x % 2, y % 2);
      assert z > 0 || y > 0 || x == 0;
    }
  }

  // ----- Bytes of a word, least significant first -----

  function ByteOf(w: Word, k: nat): Byte
    requires k < 4
  {
    if k == 0 then w % 0x100
    else if k == 1 then w / 0x100 % 0x100
    else if k == 2 then w / 0x100 / 0x100 % 0x100
    else w / 0x100 / 0x100 / 0x100
  }

  function Join(b0: Byte, b1: Byte, b2: Byte, b3: Byte): Word {
    b0 + 0x100 * b1 + 0x1_0000 * b2 + 0x100_0000 * b3
  }

  lemma JoinBytes(w: Word)
    ensures w == Join(ByteOf(w, 0), ByteOf(w, 1), ByteOf(w, 2), ByteOf(w, 3))
  {
  }

  lemma BytesOfJoin(b0: Byte, b1: Byte, b2: Byte, b3: Byte)
    ensures ByteOf(Join(b0, b1, b2, b3), 0) == b0
    ensures ByteOf(Join(b0, b1, b2, b3), 1) == b1
    ensures ByteOf(Join(b0, b1, b2, b3), 2) == b2
    ensures ByteOf(Join(b0, b1, b2, b3), 3) == b3
  {
  }

  lemma SameBytes(x: Word, y: Word)
    requires forall k: nat :: k < 4 ==> ByteOf(x, k) == ByteOf(y, k)
    ensures x == y
  {
    JoinBytes(x);
    JoinBytes(y);
  }

  lemma ShlJoin(b0: Byte, b1: Byte, b2: Byte, b3: Byte, j: nat)
    requires j < 4
    ensures Shl(Join(b0, b1, b2, b3), 8 * j) ==
            if j == 0 then Join(b0, b1, b2, b3)
            else if j == 1 then Join(0, b0, b1, b2)
            else if j == 2 then Join(0, 0, b0, b1)
            else Join(0, 0, 0, b0)
  {
    Pow2Bytes();
    var c1: int, c2: int, c3: int := b1, b2, b3;
    var x := Join(b0, b1, b2, b3);
    if j == 0 {
      assert Pow2(0) == 1;
    } else if j == 1 {
      ShlValue(x, 8, 0x100, c3, Join(0, b0, b1, b2));
    } else if j == 2 {
      ShlValue(x, 16, 0x1_0000, c2 + 0x100 * c3, Join(0, 0, b0, b1));
    } else {
      ShlValue(x, 24, 0x100_0000, c1 + 0x100 * c2 + 0x1_0000 * c3, Join(0, 0, 0, b0));
    }
  }

  lemma ShlValue(x: Word, n: nat, p: nat, q: int, r: Word)
    requires n < 32 && p == Pow2(n) && x * p == WORD * q + r
    ensures Shl(x, n) == r
  {
    DivModUnique(x * p, WORD, q, r);
  }

  lemma ShrJoin(b0: Byte, b1: Byte, b2: Byte, b3: Byte, j: nat)
    requires j < 4
    ensures Shr(Join(b0, b1, b2, b3), 8 * j) ==
            if j == 0 then Join(b0, b1, b2, b3)
            else if j == 1 then Join(b1, b2, b3, 0)
            else if j == 2 then Join(b2, b3, 0, 0)
            else Join(b3, 0, 0, 0)
  {
    Pow2Bytes();
    var c0: int, c1: int, c2: int, c3: int := b0, b1, b2, b3;
    var x: int := Join(b0, b1, b2, b3);
    if j == 0 {
      assert Pow2(0) == 1;
    } else if j == 1 {
      DivModUnique(x, 0x100, Join(b1, b2, b3, 0), c0);
    } else if j == 2 {
      DivModUnique(x, 0x1_0000, Join(b2, b3, 0, 0), c0 + 0x100 * c1);
    } else {
      DivModUnique(x, 0x100_0000, Join(b3, 0, 0, 0), c0 + 0x100 * c1 + 0x1_0000 * c2);
    }
  }

  lemma ShlBytes(x: Word, j: nat, k: nat)
    requires j < 4 && k < 4
    ensures ByteOf(Shl(x, 8 * j), k) == if k < j then 0 else ByteOf(x, k - j)
  {
    JoinBytes(x);
    var b0, b1, b2, b3 := ByteOf(x, 0), ByteOf(x, 1), ByteOf(x, 2), ByteOf(x, 3);
    ShlJoin(b0, b1, b2, b3, j);
    BytesOfJoin(0, b0, b1, b2);
    BytesOfJoin(0, 0, b0, b1);
    BytesOfJoin(0, 0, 0, b0);
  }

  lemma ShrBytes(x: Word, j: nat, k: nat)
    requires j < 4 && k < 4
    ensures ByteOf(Shr(x, 8 * j), k) == if k + j < 4 then ByteOf(x, k + j) else 0
  {
    JoinBytes(x);
    var b0, b1, b2, b3 := ByteOf(x, 0), ByteOf(x, 1), ByteOf(x, 2), ByteOf(x, 3);
    ShrJoin(b0, b1, b2, b3, j);
    BytesOfJoin(b1, b2, b3, 0);
    BytesOfJoin(b2, b3, 0, 0);
    BytesOfJoin(b3, 0, 0, 0);
  }

  lemma NotBytes(x: Word, k: nat)
    requires k < 4
    ensures ByteOf(Not(x), k) == 0xFF - ByteOf(x, k)
  {
    JoinBytes(x);
    var b0, b1, b2, b3 := ByteOf(x, 0), ByteOf(x, 1), ByteOf(x, 2), ByteOf(x, 3);
    BytesOfJoin(0xFF - b0, 0xFF - b1, 0xFF - b2, 0xFF - b3);
  }

  lemma SplitByte(x: nat, high: nat, low: Byte)
    requires x == 0x100 * high + low
    ensures x / 0x100 == high && x % 0x100 == low
  {
  }

  lemma BitwiseConcatByte(op: BitOp, x: nat, xh: nat, xl: Byte, y: nat, yh: nat, yl: Byte)
    requires x == 0x100 * xh + xl && y == 0x100 * yh + yl
    ensures Bitwise(op, x, y) % 0x100 == Bitwise(op, xl, yl)
    ensures Bitwise(op, x, y) / 0x100 == Bitwise(op, xh, yh)
  {
    hide Bitwise;
    Pow2Bytes();
    BitwiseConcat(op, 8, xh, xl, yh, yl);
    BitwiseBound(op, xl, yl, 8);
    SplitByte(Bitwise(op, x, y), Bitwise(op, xh, yh), Bitwise(op, xl, yl));
  }

  lemma BitwiseByteStep(op: BitOp, x: nat, y: nat)
    ensures Bitwise(op, x, y) % 0x100 == Bitwise(op, x % 0x100, y % 0x100)
    ensures Bitwise(op, x, y) / 0x100 == Bitwise(op, x / 0x100, y / 0x100)
  {
    hide Bitwise;
    BitwiseConcatByte(op, x, x / 0x100, x % 0x100, y, y / 0x100, y % 0x100);
  }

  /** `&`, `|` and `^` of two words act byte by byte. */
  lemma BitwiseBytes(op: BitOp, x: Word, y: Word, k: nat)
    requires k < 4
    ensures 0 <= Bitwise(op, x, y) < WORD
    ensures ByteOf(Bitwise(op, x, y), k) == Bitwise(op, ByteOf(x, k), ByteOf(y, k))
  {
    Pow2Bytes();
    BitwiseBound(op, x, y, 32);
    BitwiseByteStep(op, x, y);
    BitwiseByteStep(op, x / 0x100, y / 0x100);
    BitwiseByteStep(op, x / 0x100 / 0x100, y / 0x100 / 0x100);
  }

  /** On a byte, `& 0xFF` and `| 0` keep it and `& 0` clears it. */
  lemma ByteMasks(b: Byte)
    ensures Bitwise(AND, b, 0xFF) == b && Bitwise(AND, b, 0) == 0
    ensures Bitwise(OR, b, 0) == b && Bitwise(OR, 0, b) == b
  {
    Pow2Bytes();
    AndMask(b, 8);
    BitwiseZero(AND, b);
    BitwiseZero(OR, b);
  }

  // ----- Binary digits of a word -----

  function BitAt(x: nat, k: nat): nat {
    if k == 0 then x % 2 else BitAt(x / 2, k - 1)
  }

  lemma {:induction false} BitOfBitwise(op: BitOp, x: nat, y: nat, k: nat)
    ensures BitAt(Bitwise(op, x, y), k) == Digit(op, BitAt(x, k), BitAt(y, k))
    decreases k
  {
    hide Bitwise, Digit;
    BitwiseStep(op, x, y);
    HalfOf(Bitwise(op, x, y), Bitwise(op, x / 2, y / 2), Digit(op, x % 2, y % 2));
    if k > 0 {
      BitOfBitwise(op, x / 2, y / 2, k - 1);
    }
  }

  lemma {:induction false} BitBelow2(x: nat, k: nat)
    ensures BitAt(x, k) < 2
    decreases k
  {
    if k > 0 {
      BitBelow2(x / 2, k - 1);
    }
  }

  lemma {:induction false} BitOfPow2(j: nat, k: nat)
    ensures BitAt(Pow2(j), k) == if j == k then 1 else 0
  {
    if j == 0 {
      if k > 0 {
        BitOfZero(k - 1);
      }
    } else if k > 0 {
      BitOfPow2(j - 1, k - 1);
    }
  }

  lemma {:induction false} BitOfZero(k: nat)
    ensures BitAt(0, k) == 0
  {
    if k > 0 {
      BitOfZero(k - 1);
    }
  }

  lemma {:induction false} MaskTest(x: nat, k: nat)
    ensures Bitwise(AND, x, Pow2(k)) != 0 <==> BitAt(x, k) == 1
    decreases k
  {
    BitwiseStep(AND, x, Pow2(k));
    if k == 0 {
      BitwiseZero(AND, x / 2);
    } else {
      MaskTest(x / 2, k - 1);
    }
  }

  lemma {:induction false} Pow2Monotone(j: nat, k: nat)
    requires j <= k
    ensures Pow2(j) <= Pow2(k)
    decreases k
  {
    if j < k {
      Pow2Monotone(j, k - 1);
    }
  }

  lemma {:induction false} BitOfMultiple(x: nat, n: nat, k: nat)
    ensures 0 <= x * Pow2(n)
    ensures BitAt(x * Pow2(n), k) == if k < n then 0 else BitAt(x, k - n)
    decreases n
  {
    if n > 0 {
      MulAssoc(2, Pow2(n - 1), x);
      HalfOf(x * Pow2(n), x * Pow2(n - 1), 0);
      if k > 0 {
        BitOfMultiple(x, n - 1, k - 1);
      }
    }
  }

  lemma {:induction false} BitOfRemainder(y: nat, m: nat, k: nat)
    requires k < m
    ensures BitAt(y % Pow2(m), k) == BitAt(y, k)
    decreases k
  {
    var q, r, p := y / Pow2(m), y % Pow2(m), Pow2(m - 1);
    MulAssoc(2, p, q);
    assert y == 2 * (p * q) + r;
    HalfOf(y, p * q, r);
    DivModUnique(y / 2, p, q, r / 2);
    if k > 0 {
      BitOfRemainder(y / 2, m - 1, k - 1);
    }
  }

  lemma {:induction false} BitOfQuotient(x: nat, n: nat, k: nat)
    ensures 0 <= x / Pow2(n)
    ensures BitAt(x / Pow2(n), k) == BitAt(x, k + n)
    decreases n
  {
    DivBound(x, Pow2(n));
    if n > 0 {
      var q, r, p := x / Pow2(n), x % Pow2(n), Pow2(n - 1);
      MulAssoc(2, p, q);
      assert x == 2 * (p * q) + r;
      HalfOf(x, p * q, r);
      DivModUnique(x / 2, p, q, r / 2);
      BitOfQuotient(x / 2, n - 1, k);
    }
  }

  lemma {:induction false} BitOfComplement(x: nat, m: nat, k: nat)
    requires x < Pow2(m) && k < m
    ensures BitAt(Pow2(m) - 1 - x, k) == 1 - BitAt(x, k)
    decreases k
  {
    var p := Pow2(m - 1);
    HalfOf(Pow2(m) - 1 - x, p - 1 - x / 2, 1 - x % 2);
    if k > 0 {
      BitOfComplement(x / 2, m - 1, k - 1);
    }
  }

  lemma {:induction false} BitBeyond(x: nat, m: nat, k: nat)
    requires x < Pow2(m) && m <= k
    ensures BitAt(x, k) == 0
    decreases k
  {
    if k > 0 {
      BitBeyond(x / 2, if m > 0 then m - 1 else 0, k - 1);
    }
  }

  lemma ShlBits(x: Word, n: nat, k: nat)
    requires n < 32 && k < 32
    ensures BitAt(Shl(x, n), k) == if k < n then 0 else BitAt(x, k - n)
  {
    hide BitAt, Pow2;
    Pow2Bytes();
    BitOfMultiple(x, n, k);
    BitOfRemainder(x * Pow2(n), 32, k);
  }

  lemma ShrBits(x: Word, n: nat, k: nat)
    requires n < 32 && k < 32
    ensures BitAt(Shr(x, n), k) == if k + n < 32 then BitAt(x, k + n) else 0
  {
    hide BitAt, Pow2;
    Pow2Bytes();
    BitOfQuotient(x, n, k);
    if k + n >= 32 {
      BitBeyond(x, 32, k + n);
    }
  }

  lemma NotBits(x: Word, k: nat)
    requires k < 32
    ensures BitAt(Not(x), k) == 1 - BitAt(x, k)
  {
    hide BitAt, Pow2;
    Pow2Bytes();
    BitOfComplement(x, 32, k);
  }

  /** `>>` on a signed operand divides by a power of two and rounds towards minus infinity. */
  lemma SraFloor(x: Word, n: nat)
    requires n < 32
    ensures var q := Signed(Sra(x, n)); Pow2(n) * q <= Signed(x) < Pow2(n) * q + Pow2(n)
  {
    hide Pow2;
    var v, p := Signed(x), Pow2(n);
    var q := v / p;
    assert v == p * q + v % p;
    FloorRange(v, p, q);
    SignedToWord(q);
  }

  lemma FloorRange(v: int, p: int, q: int)
    requires p > 0 && p * q <= v < p * q + p && -0x8000_0000 <= v < 0x8000_0000
    ensures -0x8000_0000 <= q < 0x8000_0000
  {
    ScaledQuotient(p, q);
  }

  lemma ScaledQuotient(p: int, q: int)
    requires p >= 1
    ensures q >= 0 ==> p * q >= q
    ensures q < 0 ==> p * q + p <= q + 1
  {
    if q >= 0 {
      MulMono(q, 1, p);
    } else {
      MulMono(-q - 1, 1, p);
      assert p * q + p == -((-q - 1) * p);
    }
  }
}
