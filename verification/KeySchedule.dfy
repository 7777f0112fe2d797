/** The RC5 key expansion: filling L and S and mixing them. */
module KeySchedule {
  import opened Bits
  import opened Rc5

  type Key = k: seq<Byte> | |k| == 16 witness seq(16, _ => 0)
  type KeyWords = l: seq<Half> | |l| == 8 witness seq(8, _ => 0)

  const MAGIC_P: Half := 0xB7E1
  const MAGIC_Q: Half := 0x9E37
  const MIX_STEPS: nat := 78

  // ----- Filling -----

  function FilledL(key: Key): KeyWords {
    seq(8, i requires 0 <= i < 8 => Pack(key[2 * i], key[2 * i + 1]))
  }

  /** Word `i` of S before mixing: an arithmetic progression. */
  function Magic(i: nat): Half { (MAGIC_P + i * MAGIC_Q) % 0x1_0000 }

  function FilledS(): Table {
    seq(26, i requires 0 <= i < 26 => Magic(i))
  }

  lemma MagicStart()
    ensures Magic(0) == MAGIC_P
  {
  }

  lemma NextMagic(i: nat)
    ensures Magic(i + 1) == Add16(Magic(i), MAGIC_Q)
  {
    ModAdd(MAGIC_P + i * MAGIC_Q, MAGIC_Q);
    assert (i + 1) * MAGIC_Q == i * MAGIC_Q + MAGIC_Q;
  }

  lemma ModAdd(x: int, y: int)
    ensures (x % 0x1_0000 + y) % 0x1_0000 == (x + y) % 0x1_0000
  {
  }

  lemma FilledLInjective(key: Key, key': Key)
    requires FilledL(key) == FilledL(key')
    ensures key == key'
  {
    forall i | 0 <= i < 16
      ensures key[i] == key'[i]
    {
      var j := i / 2;
      assert FilledL(key)[j] == FilledL(key')[j];
      assert i == 2 * j || i == 2 * j + 1;
    }
  }

  // ----- Mixing -----

  /** The variables of the mixing loop. */
  datatype Mix = Mix(s: Table, l: KeyWords, a: Half, b: Half, i: nat, j: nat) {
    ghost predicate Valid() {
      i < 26 && j < 8
    }
  }

  function MixStep(x: Mix): (y: Mix)
    requires x.Valid()
    ensures y.Valid()
  {
    var a := Rol(Add16(Add16(x.s[x.i], x.a), x.b), 3);
    var ab := Add16(a, x.b);
    var b := Rol(Add16(Add16(x.l[x.j], a), x.b), ab);
    Mix(x.s[x.i := a], x.l[x.j := b], a, b, (x.i + 1) % 26, (x.j + 1) % 8)
  }

  function MixSteps(x: Mix, n: nat): (y: Mix)
    requires x.Valid()
    ensures y.Valid()
  {
    if n == 0 then x else MixStep(MixSteps(x, n - 1))
  }

  function Start(s: Table, l: KeyWords): Mix { Mix(s, l, 0, 0, 0, 0) }

  /** The expanded key. */
  function Expand(key: Key): Table {
    MixSteps(Start(FilledS(), FilledL(key)), MIX_STEPS).s
  }

  // ----- What the mixing loop keeps -----

  /** The indices of step n, and the previous A and B found again in the preceding slots. */
  lemma {:induction false} MixTrail(s: Table, l: KeyWords, n: nat)
    ensures var x := MixSteps(Start(s, l), n);
            && x.i == n % 26 && x.j == n % 8
            && (n == 0 ==> x.a == 0 && x.b == 0)
            && (n > 0 ==> x.a == x.s[(n - 1) % 26] && x.b == x.l[(n - 1) % 8])
    decreases n
  {
    hide Rol, Add16;
    if n > 0 {
      MixTrail(s, l, n - 1);
      NextIndex(n);
    }
  }

  lemma NextIndex(n: nat)
    requires n > 0
    ensures ((n - 1) % 26 + 1) % 26 == n % 26 != (n - 1) % 26
    ensures ((n - 1) % 8 + 1) % 8 == n % 8 != (n - 1) % 8
  {
    NextResidue(n, 26);
    NextResidue(n, 8);
  }

  lemma NextResidue(n: nat, d: nat)
    requires n > 0 && d > 1
    ensures ((n - 1) % d + 1) % d == n % d != (n - 1) % d
  {
    var q, r := (n - 1) / d, (n - 1) % d;
    assert n == d * q + r + 1;
    if r + 1 == d {
      assert d * (q + 1) == d * q + d;
      DivModUnique(n, d, q + 1, 0);
      DivModUnique(d, d, 1, 0);
    } else {
      DivModUnique(n, d, q, r + 1);
      DivModUnique(r + 1, d, 0, r + 1);
    }
  }

  /** Step n touches slot n % 26 of S and slot n % 8 of L only. */
  lemma MixTouches(s: Table, l: KeyWords, n: nat, k: nat)
    ensures var x, y := MixSteps(Start(s, l), n), MixSteps(Start(s, l), n + 1);
            && (k < 26 && k != n % 26 ==> y.s[k] == x.s[k])
            && (k < 8 && k != n % 8 ==> y.l[k] == x.l[k])
  {
    hide Rol, Add16;
    MixTrail(s, l, n);
  }

  /** Steps that do not come to slot `k` leave it alone. */
  lemma {:induction false} SlotKept(s: Table, l: KeyWords, k: nat, first: nat, last: nat)
    requires k < 26 && first <= last && forall n :: first <= n < last ==> n % 26 != k
    ensures MixSteps(Start(s, l), last).s[k] == MixSteps(Start(s, l), first).s[k]
    decreases last
  {
    hide MixSteps;
    if first != last {
      MixTouches(s, l, last - 1, k);
      SlotKept(s, l, k, first, last - 1);
    }
  }

  lemma StepsAtSlot(s: Table, l: KeyWords, k: nat)
    requires k < 26
    ensures (set n: nat | n < MIX_STEPS && MixSteps(Start(s, l), n).i == k) == {k, k + 26, k + 52}
  {
    hide MixSteps;
    forall n: nat
      ensures MixSteps(Start(s, l), n).i == n % 26
    {
      MixTrail(s, l, n);
    }
  }

  /** Step `n` leaves its A in the slot it works on. */
  lemma StoredA(s: Table, l: KeyWords, n: nat)
    ensures MixSteps(Start(s, l), n + 1).s[n % 26] == MixSteps(Start(s, l), n + 1).a
  {
    hide MixSteps;
    MixTrail(s, l, n + 1);
  }

  /** The loop writes slot `k` of S in exactly the steps k, k + 26 and k + 52: the first one finds what S was
      filled with, the others what the previous one stored, and the last one stores what remains. */
  lemma EachSlotThrice(s: Table, l: KeyWords, k: nat)
    requires k < 26
    ensures (set n: nat | n < MIX_STEPS && MixSteps(Start(s, l), n).i == k) == {k, k + 26, k + 52}
    ensures MixSteps(Start(s, l), k).s[k] == s[k]
    ensures MixSteps(Start(s, l), k + 26).s[k] == MixSteps(Start(s, l), k + 1).a
    ensures MixSteps(Start(s, l), k + 52).s[k] == MixSteps(Start(s, l), k + 27).a
    ensures MixSteps(Start(s, l), MIX_STEPS).s[k] == MixSteps(Start(s, l), k + 53).a
  {
    hide MixSteps;
    StepsAtSlot(s, l, k);
    StoredA(s, l, k);
    StoredA(s, l, k + 26);
    StoredA(s, l, k + 52);
    SlotKept(s, l, k, 0, k);
    assert MixSteps(Start(s, l), 0).s[k] == s[k] by {
      StartSlots(s, l);
    }
    SlotKept(s, l, k, k + 1, k + 26);
    SlotKept(s, l, k, k + 27, k + 52);
    SlotKept(s, l, k, k + 53, MIX_STEPS);
  }

  lemma StartSlots(s: Table, l: KeyWords)
    ensures MixSteps(Start(s, l), 0) == Start(s, l)
  {
  }

  // ----- The mixing loop is injective -----

  lemma {:induction false} RolInjective(x: Half, y: Half, n: Half)
    requires Rol(x, n) == Rol(y, n)
    ensures x == y
  {
    hide Rol, Ror;
    RolRor(x, n);
    RolRor(y, n);
  }

  lemma SumInjective(x: Half, y: Half, z: Half)
    requires Add16(x, z) == Add16(y, z)
    ensures x == y
  {
    SumCancels(x, z);
    SumCancels(y, z);
  }

  /** One step, run backwards: from equal arrays after it and equal A and B before it. */
  lemma StepInjective(x: Mix, y: Mix)
    requires x.Valid() && x.i == y.i && x.j == y.j && x.a == y.a && x.b == y.b
    requires MixStep(x).s == MixStep(y).s && MixStep(x).l == MixStep(y).l
    ensures x == y
  {
    hide Rol, Add16;
    var a, b := MixStep(x).s[x.i], MixStep(x).l[x.j];
    assert a == MixStep(y).s[x.i] && b == MixStep(y).l[x.j];
    RolInjective(Add16(Add16(x.s[x.i], x.a), x.b), Add16(Add16(y.s[x.i], x.a), x.b), 3);
    SumInjective(Add16(x.s[x.i], x.a), Add16(y.s[x.i], x.a), x.b);
    SumInjective(x.s[x.i], y.s[x.i], x.a);
    RolInjective(Add16(Add16(x.l[x.j], a), x.b), Add16(Add16(y.l[x.j], a), x.b), Add16(a, x.b));
    SumInjective(Add16(x.l[x.j], a), Add16(y.l[x.j], a), x.b);
    SumInjective(x.l[x.j], y.l[x.j], a);
    SameElsewhere(x.s, y.s, x.i, a);
    SameElsewhere(x.l, y.l, x.j, b);
  }

  lemma SameElsewhere(s: seq<Half>, t: seq<Half>, i: nat, v: Half)
    requires i < |s| == |t| && s[i := v] == t[i := v] && s[i] == t[i]
    ensures s == t
  {
    forall k | 0 <= k < |s|
      ensures s[k] == t[k]
    {
      assert s[i := v][k] == t[i := v][k];
    }
  }

  /** Different arrays stay different through any number of mixing steps. */
  lemma {:induction false} MixInjective(s: Table, l: KeyWords, s': Table, l': KeyWords, n: nat)
    requires MixSteps(Start(s, l), n).s == MixSteps(Start(s', l'), n).s
    requires MixSteps(Start(s, l), n).l == MixSteps(Start(s', l'), n).l
    ensures s == s' && l == l'
    decreases n
  {
    hide MixStep;
    if n > 0 {
      var x, y := MixSteps(Start(s, l), n - 1), MixSteps(Start(s', l'), n - 1);
      MixTrail(s, l, n - 1);
      MixTrail(s', l', n - 1);
      if n > 1 {
        NextIndex(n - 1);
        MixTouches(s, l, n - 1, (n - 2) % 26);
        MixTouches(s', l', n - 1, (n - 2) % 26);
        MixTouches(s, l, n - 1, (n - 2) % 8);
        MixTouches(s', l', n - 1, (n - 2) % 8);
      }
      StepInjective(x, y);
      MixInjective(s, l, s', l', n - 1);
    }
  }

  /** Distinct keys end the expansion in distinct (S, L). */
  lemma KeysStayDistinct(key: Key, key': Key)
    requires key != key'
    ensures var x, y := MixSteps(Start(FilledS(), FilledL(key)), MIX_STEPS),
                        MixSteps(Start(FilledS(), FilledL(key')), MIX_STEPS);
            (x.s, x.l) != (y.s, y.l)
  {
    hide MixSteps, FilledS, FilledL;
    var x, y := MixSteps(Start(FilledS(), FilledL(key)), MIX_STEPS),
                MixSteps(Start(FilledS(), FilledL(key')), MIX_STEPS);
    if x.s == y.s && x.l == y.l {
      MixInjective(FilledS(), FilledL(key), FilledS(), FilledL(key'), MIX_STEPS);
      FilledLInjective(key, key');
    }
  }

  // ----- The expansion as it runs -----

  method FillL(key: array<Byte>, l: array<Half>)
    requires key.Length == 16 && l.Length == 8
    modifies l
    ensures l[..] == FilledL(key[..])
  {
    for i := 0 to 8
      invariant forall k :: 0 <= k < i ==> l[k] == 0
    {
      l[i] := 0;
    }
    for i := 0 to 16
      invariant forall k :: 0 <= k < 8 && 2 * k + 1 < i ==> l[k] == Pack(key[2 * k], key[2 * k + 1])
      invariant i % 2 == 1 ==> l[i / 2] == key[i - 1]
      invariant forall k :: 0 <= k < 8 && 2 * k >= i ==> l[k] == 0
    {
      var j := i / 2;
      var t := if i % 2 == 0 then Pack(key[i], 0) else Pack(0, key[i]);
      OrKeyByte(l[j], key[i], i % 2);
      l[j] := Or16(l[j], t);
    }
  }

  method FillS(s: array<Half>)
    requires s.Length == 26
    modifies s
    ensures s[..] == FilledS()
  {
    hide Magic, Add16;
    MagicStart();
    s[0] := MAGIC_P;
    for i := 1 to 26
      invariant forall k :: 0 <= k < i ==> s[k] == Magic(k)
    {
      NextMagic(i - 1);
      s[i] := Add16(s[i - 1], MAGIC_Q);
    }
  }

  /** The key expansion. */
  method Setup(key: array<Byte>, s: array<Half>)
    requires key.Length == 16 && s.Length == 26
    modifies s
    ensures s[..] == Expand(key[..])
  {
    hide Rol, Add16, MixStep, FilledL, FilledS;
    var l := new Half[8];
    FillL(key, l);
    FillS(s);
    ghost var start := Start(s[..], l[..]);
    var i: nat, j: nat := 0, 0;
    var a: Half, b: Half := 0, 0;
    for n := 0 to MIX_STEPS
      invariant i < 26 && j < 8
      invariant Mix(s[..], l[..], a, b, i, j) == MixSteps(start, n)
    {
      ghost var x := MixSteps(start, n);
      a := Rol(Add16(Add16(s[i], a), b), 3);
      s[i] := a;
      b := Rol(Add16(Add16(l[j], a), b), Add16(a, b));
      l[j] := b;
      i := (i + 1) % 26;
      j := (j + 1) % 8;
      MixStepIs(x, a, b, s[..], l[..]);
    }
  }

  lemma OrKeyByte(w: Half, t: Byte, half: nat)
    requires (half == 0 && w == 0) || (half == 1 && w < 0x100)
    ensures half == 0 ==> Or16(w, Pack(t, 0)) == t
    ensures half == 1 ==> Or16(w, Pack(0, t)) == Pack(w, t)
  {
    hide Bitwise;
    BitwiseZero(BitOp.OR, t);
    BitwiseZero(BitOp.OR, w);
    if half == 1 {
      Pow2Bytes();
      BitwiseConcat(BitOp.OR, 8, 0, w, t, 0);
    }
  }

  lemma MixStepIs(x: Mix, a: Half, b: Half, s: seq<Half>, l: seq<Half>)
    requires x.Valid() && a == Rol(Add16(Add16(x.s[x.i], x.a), x.b), 3)
    requires b == Rol(Add16(Add16(x.l[x.j], a), x.b), Add16(a, x.b))
    requires s == x.s[x.i := a] && l == x.l[x.j := b]
    ensures MixStep(x) == Mix(s, l, a, b, (x.i + 1) % 26, (x.j + 1) % 8)
  {
    hide Rol, Add16;
  }
}
