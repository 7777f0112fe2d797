/** Laws of the trapping, multiplying and dividing instructions over exact integers. */
module Arithmetic {
  import opened Bits
  import opened Memory
  import opened Machine
  import Op = Opcodes

  function SignedRs(insn: Word, g: Gprs): int { Signed(Rs(insn, g.r)) }
  function SignedRt(insn: Word, g: Gprs): int { Signed(Rt(insn, g.r)) }

  // ----- ADD, ADDI, SUB -----

  /** `trapping` traps iff register `i` is written and the exact result `exact` does not fit; otherwise
      it does what `wrapping` does, and a written register reads as the exact result. */
  ghost predicate TrapsOnOverflow(trapping: Outcome<Gprs>, wrapping: Outcome<Gprs>, g: Gprs, i: nat, exact: int)
    requires i < 32
  {
    && (trapping.exn == OVERFLOW <==> i != 0 && !FitsSigned(exact))
    && (trapping.exn == OVERFLOW ==> trapping.st == g)
    && (trapping.exn != OVERFLOW ==> trapping == wrapping)
    && (trapping.exn == OK && i != 0 ==> Signed(trapping.st.r[i]) == exact)
  }

  lemma AddTraps(insn: Word, g: Gprs)
    requires Op.FieldSa(insn) == 0
    ensures TrapsOnOverflow(DoAlu3(insn, Op.ADD, g), DoAlu3(insn, Op.ADDU, g), g, Op.FieldRd(insn),
                            SignedRs(insn, g) + SignedRt(insn, g))
  {
    SumWraps(Rs(insn, g.r), Rt(insn, g.r));
    SignedToWord(SignedRs(insn, g) + SignedRt(insn, g));
  }

  lemma AddImmediateTraps(insn: Word, g: Gprs)
    ensures TrapsOnOverflow(DoAlui(insn, Op.ADDI, g), DoAlui(insn, Op.ADDIU, g), g, Op.FieldRt(insn),
                            SignedRs(insn, g) + SImm(insn))
  {
    SignedToWord(SImm(insn));
    SumWraps(Rs(insn, g.r), UImm(insn));
    SignedToWord(SignedRs(insn, g) + SImm(insn));
  }

  lemma SubTraps(insn: Word, g: Gprs)
    requires Op.FieldSa(insn) == 0
    ensures TrapsOnOverflow(DoAlu3(insn, Op.SUB, g), DoAlu3(insn, Op.SUBU, g), g, Op.FieldRd(insn),
                            SignedRs(insn, g) - SignedRt(insn, g))
  {
    SumWraps(Rs(insn, g.r), Rt(insn, g.r));
    SignedToWord(SignedRs(insn, g) - SignedRt(insn, g));
  }

  lemma SumWraps(x: Word, y: Word)
    ensures ToWord(Signed(x) + Signed(y)) == ToWord(x + y)
    ensures ToWord(Signed(x) - Signed(y)) == ToWord(x - y)
  {
  }

  // ----- MULT, MULTU -----

  /** HI:LO read as a 64-bit two's complement number. */
  function SignedPair(g: Gprs): int {
    Signed(g.hi) * WORD + g.lo
  }

  function UnsignedPair(g: Gprs): nat {
    g.hi * WORD + g.lo
  }

  lemma ProductExact(insn: Word, g: Gprs)
    requires insn / 0x40 % 0x400 == 0
    ensures var o := DoDivMult(insn, Op.MULT, g);
            o.exn == OK && o.st.r == g.r && SignedPair(o.st) == SignedRs(insn, g) * SignedRt(insn, g)
    ensures var o := DoDivMult(insn, Op.MULTU, g);
            o.exn == OK && o.st.r == g.r && UnsignedPair(o.st) == Rs(insn, g.r) * Rt(insn, g.r)
  {
    var x, y := SignedRs(insn, g), SignedRt(insn, g);
    MulRange(x, y, 0x8000_0000);
    PairOfProduct(x * y, g);
    MulRange(Rs(insn, g.r), Rt(insn, g.r), 0xFFFF_FFFF);
    PairOfUnsignedProduct(Rs(insn, g.r) * Rt(insn, g.r), g);
  }

  lemma MulRange(x: int, y: int, b: int)
    requires -b <= x <= b && -b <= y <= b
    ensures -(b * b) <= x * y <= b * b
    ensures x >= 0 && y >= 0 ==> x * y >= 0
  {
    var p: int := if x < 0 then -x else x;
    var q: int := if y < 0 then -y else y;
    MulMono(p, q, b);
    MulMono(b, p, b);
    assert x * y == p * q || x * y == -(p * q);
  }

  lemma PairOfProduct(p: int, g: Gprs)
    requires -0x4000_0000_0000_0000 <= p <= 0x4000_0000_0000_0000
    ensures SignedPair(Product(p, g).st) == p
  {
    var bits := p % 0x1_0000_0000_0000_0000;
    assert bits == if p >= 0 then p else p + 0x1_0000_0000_0000_0000;
    assert bits == WORD * (bits / WORD) + bits % WORD;
  }

  lemma PairOfUnsignedProduct(p: nat, g: Gprs)
    requires p < 0x1_0000_0000_0000_0000
    ensures UnsignedPair(Product(p, g).st) == p
  {
    assert p == WORD * (p / WORD) + p % WORD;
  }

  // ----- DIV, DIVU -----

  /** Quotient and remainder of a division that truncates towards zero: the remainder is smaller than
      the divisor and has the sign of the dividend. */
  ghost predicate Truncated(a: int, b: int, q: int, r: int) {
    && a == q * b + r
    && Abs(r) < Abs(b)
    && (r != 0 ==> (r < 0 <==> a < 0))
  }

  lemma TruncatedDivision(a: int, b: int)
    requires b != 0
    ensures Truncated(a, b, TruncDiv(a, b), TruncRem(a, b))
    ensures Abs(TruncDiv(a, b)) == Abs(a) / Abs(b)
  {
    hide Truncated;
    var p, d := Abs(a), Abs(b);
    assert p == d * (p / d) + p % d;
    SignedQuotient(a, b, p / d, p % d);
  }

  lemma SignedQuotient(a: int, b: int, e: int, f: int)
    requires b != 0 && e >= 0 && f >= 0 && Abs(a) == Abs(b) * e + f && f < Abs(b)
    ensures var q := if (a < 0) == (b < 0) then e else -e;
            Truncated(a, b, q, a - b * q)
  {
    SignedMul(b, e);
    var q := if (a < 0) == (b < 0) then e else -e;
    assert b * q == if a < 0 then -(Abs(b) * e) else Abs(b) * e;
  }

  lemma SignedMul(x: int, y: int)
    ensures -x * y == -(x * y) && x * -y == -(x * y) && -x * -y == x * y
  {
  }

  /** A truncated quotient and remainder are unique, so Truncated pins the result of a division. */
  lemma TruncatedUnique(a: int, b: int, q: int, r: int, q': int, r': int)
    requires b != 0 && Truncated(a, b, q, r) && Truncated(a, b, q', r')
    ensures q == q' && r == r'
  {
    MulDifference(q, q', b);
    SmallMultiple(q - q', b, r' - r);
  }

  lemma MulDifference(x: int, y: int, b: int)
    ensures (x - y) * b == x * b - y * b
  {
  }

  lemma SmallMultiple(k: int, b: int, n: int)
    requires b != 0 && k * b == n && Abs(n) < Abs(b)
    ensures k == 0 && n == 0
  {
    SignedMul(k, b);
    if k > 0 {
      MulMono(Abs(b), 1, k);
    } else if k < 0 {
      MulMono(Abs(b), 1, -k);
    }
  }

  lemma QuotientFits(a: int, b: int)
    requires FitsSigned(a) && b != 0 && !(a == -0x8000_0000 && b == -1)
    ensures FitsSigned(TruncDiv(a, b))
  {
    TruncatedDivision(a, b);
    if Abs(b) >= 2 {
      QuotientHalves(Abs(a), Abs(b));
    } else if b == 1 {
      assert TruncDiv(a, 1) == a;
    }
  }

  lemma QuotientHalves(p: nat, d: nat)
    requires d >= 2
    ensures 2 * (p / d) <= p
  {
    var e := p / d;
    assert p == d * e + p % d;
    MulMono(e, 2, d);
  }

  lemma DivideLaw(insn: Word, g: Gprs)
    requires insn / 0x40 % 0x400 == 0
    ensures var o, a, b := DoDivMult(insn, Op.DIV, g), SignedRs(insn, g), SignedRt(insn, g);
            && (o.exn == UNDEFINED <==> a == -0x8000_0000 && b == -1)
            && (o.exn != UNDEFINED ==> o.exn == OK && o.st.r == g.r)
            && (b == 0 ==> o.st.hi == o.st.lo == ALL_ONES)
            && (o.exn == OK && b != 0 ==> Truncated(a, b, Signed(o.st.lo), Signed(o.st.hi)))
    ensures var o, a, b := DoDivMult(insn, Op.DIVU, g), Rs(insn, g.r), Rt(insn, g.r);
            && o.exn == OK && o.st.r == g.r
            && (b == 0 ==> o.st.hi == o.st.lo == ALL_ONES)
            && (b != 0 ==> Truncated(a, b, o.st.lo, o.st.hi))
  {
    var a, b := SignedRs(insn, g), SignedRt(insn, g);
    if b != 0 && !(a == -0x8000_0000 && b == -1) {
      SignedDivision(a, b, g);
    }
    if Rt(insn, g.r) != 0 {
      UnsignedDivision(Rs(insn, g.r), Rt(insn, g.r), g);
    }
  }

  lemma SignedDivision(a: int, b: int, g: Gprs)
    requires FitsSigned(a) && FitsSigned(b) && b != 0 && !(a == -0x8000_0000 && b == -1)
    ensures Truncated(a, b, Signed(Divide(a, b, g).st.lo), Signed(Divide(a, b, g).st.hi))
  {
    TruncatedDivision(a, b);
    QuotientFits(a, b);
    SignedToWord(TruncDiv(a, b));
    SignedToWord(TruncRem(a, b));
  }

  lemma UnsignedDivision(a: Word, b: Word, g: Gprs)
    requires b != 0
    ensures Truncated(a, b, Divide(a, b, g).st.lo, Divide(a, b, g).st.hi)
  {
    TruncatedDivision(a, b);
    DivBound(a, b);
  }
}
