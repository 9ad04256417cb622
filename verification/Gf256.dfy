/**
 The field GF(256) of the QR symbol's Reed-Solomon code: bytes are polynomials
 over GF(2) modulo x^8 + x^4 + x^3 + x^2 + 1 (0x11D). `GfMul` is the source's
 Russian-peasant loop; it is specified by `Mul`, and the field laws are proved
 about `Mul`.

 The proofs treat `Add` and `XTime` as opaque operations wherever they can
 (`hide`), and go back to bits only in the few lemmas about single bytes.
 */
module Gf256 {

  function Add(a: bv8, b: bv8): bv8 { a ^ b }

  // Multiplication by x.
  function XTime(z: bv8): bv8 { (z << 1) ^ ((z >> 7) * 0x1D) }

  predicate BitSet(y: bv8, i: nat)
    requires i < 8
  {
    match i
    case 0 => y & 0x01 != 0
    case 1 => y & 0x02 != 0
    case 2 => y & 0x04 != 0
    case 3 => y & 0x08 != 0
    case 4 => y & 0x10 != 0
    case 5 => y & 0x20 != 0
    case 6 => y & 0x40 != 0
    case 7 => y & 0x80 != 0
  }

  function Scale(c: bool, x: bv8): bv8 { if c then x else 0 }

  // Horner's scheme over the k top bits of y, as the loop evaluates it.
  function Horner(x: bv8, y: bv8, k: nat): bv8
    requires k <= 8
  {
    if k == 0 then 0 else Add(XTime(Horner(x, y, k - 1)), Scale(BitSet(y, 8 - k), x))
  }

  function Mul(x: bv8, y: bv8): bv8 { Horner(x, y, 8) }

  function Pow(x: bv8, n: nat): bv8 {
    if n == 0 then 1 else Mul(Pow(x, n - 1), x)
  }

  lemma LowBit(y: bv8, i: nat)
    requires i < 8
    ensures (y >> i) & 1 == if BitSet(y, i) then 1 else 0
  {}

  lemma TimesBit(c: bool, x: bv8)
    ensures (if c then 1 else 0) * x == Scale(c, x)
  {}

  // The loop body, on one bit of y, is one step of Horner's scheme.
  lemma LoopBody(z: bv8, x: bv8, y: bv8, i: nat)
    requires i < 8
    ensures ((z << 1) ^ ((z >> 7) * 0x1D)) ^ (((y >> i) & 1) * x) == Add(XTime(z), Scale(BitSet(y, i), x))
  {
    LowBit(y, i);
    TimesBit(BitSet(y, i), x);
    hide BitSet, Scale;
  }

  method GfMul(x: bv8, y: bv8) returns (z: bv8)
    ensures z == Mul(x, y)
  {
    hide Add, XTime, BitSet, Scale;
    z := 0;
    var i := 7;
    while i >= 0
      invariant -1 <= i <= 7
      invariant z == Horner(x, y, 7 - i)
    {
      LoopBody(z, x, y, i);
      z := (z << 1) ^ ((z >> 7) * 0x1D);
      z := z ^ (((y >> i) & 1) * x);
      i := i - 1;
    }
  }

  // ---- single-byte facts, by bits ----

  lemma AddAssoc(a: bv8, b: bv8, c: bv8)
    ensures Add(Add(a, b), c) == Add(a, Add(b, c))
  {}

  lemma AddComm(a: bv8, b: bv8)
    ensures Add(a, b) == Add(b, a)
  {}

  lemma AddZero(a: bv8)
    ensures Add(a, 0) == a && Add(0, a) == a && Add(a, a) == 0
  {}

  lemma XTimeAdd(a: bv8, b: bv8)
    ensures XTime(Add(a, b)) == Add(XTime(a), XTime(b))
  {}

  lemma XTimeZero(a: bv8)
    ensures XTime(a) == 0 <==> a == 0
  {}

  lemma BitSetAdd(a: bv8, b: bv8, i: nat)
    requires i < 8
    ensures BitSet(Add(a, b), i) == (BitSet(a, i) != BitSet(b, i))
  {
    match i {
      case 0 => case 1 => case 2 => case 3 => case 4 => case 5 => case 6 => case 7 =>
    }
  }

  // ---- consequences, by equations ----

  lemma AddShuffle(p: bv8, q: bv8, a: bv8, b: bv8)
    ensures Add(Add(p, q), Add(a, b)) == Add(Add(p, a), Add(q, b))
  {
    AddAssoc(p, q, Add(a, b));
    AddAssoc(q, a, b);
    AddComm(q, a);
    AddAssoc(a, q, b);
    AddAssoc(p, a, Add(q, b));
    hide *;
  }

  lemma ScaleAdd(c: bool, a: bv8, b: bv8)
    ensures Scale(c, Add(a, b)) == Add(Scale(c, a), Scale(c, b))
  {
    hide Add;
    AddZero(0);
  }

  lemma ScaleXor(c: bool, d: bool, x: bv8)
    ensures Scale(c != d, x) == Add(Scale(c, x), Scale(d, x))
  {
    hide Add;
    AddZero(0);
    AddZero(x);
  }

  lemma {:induction false} HornerAddLeft(a: bv8, b: bv8, y: bv8, k: nat)
    requires k <= 8
    ensures Horner(Add(a, b), y, k) == Add(Horner(a, y, k), Horner(b, y, k))
  {
    hide Add, XTime, BitSet, Scale;
    if k == 0 {
      AddZero(0);
    } else {
      var p, q, c := Horner(a, y, k - 1), Horner(b, y, k - 1), BitSet(y, 8 - k);
      HornerAddLeft(a, b, y, k - 1);
      XTimeAdd(p, q);
      ScaleAdd(c, a, b);
      AddShuffle(XTime(p), XTime(q), Scale(c, a), Scale(c, b));
    }
  }

  lemma {:induction false} HornerAddRight(x: bv8, a: bv8, b: bv8, k: nat)
    requires k <= 8
    ensures Horner(x, Add(a, b), k) == Add(Horner(x, a, k), Horner(x, b, k))
  {
    hide Add, XTime, BitSet, Scale;
    if k == 0 {
      AddZero(0);
    } else {
      var p, q, c, d := Horner(x, a, k - 1), Horner(x, b, k - 1), BitSet(a, 8 - k), BitSet(b, 8 - k);
      HornerAddRight(x, a, b, k - 1);
      XTimeAdd(p, q);
      BitSetAdd(a, b, 8 - k);
      ScaleXor(c, d, x);
      AddShuffle(XTime(p), XTime(q), Scale(c, x), Scale(d, x));
    }
  }

  lemma {:induction false} HornerXTime(x: bv8, y: bv8, k: nat)
    requires k <= 8
    ensures Horner(XTime(x), y, k) == XTime(Horner(x, y, k))
  {
    hide Add, XTime, BitSet;
    XTimeZero(0);
    if k > 0 {
      HornerXTime(x, y, k - 1);
      XTimeAdd(XTime(Horner(x, y, k - 1)), Scale(BitSet(y, 8 - k), x));
    }
  }


  // ---- additive maps are determined by the eight powers of x ----

  function Basis(i: nat): bv8
    requires i < 8
  {
    match i
    case 0 => 0x01
    case 1 => 0x02
    case 2 => 0x04
    case 3 => 0x08
    case 4 => 0x10
    case 5 => 0x20
    case 6 => 0x40
    case 7 => 0x80
  }

  ghost predicate Additive(f: bv8 -> bv8) {
    forall a, b {:trigger f(Add(a, b))} :: f(Add(a, b)) == Add(f(a), f(b))
  }

  // y with only its k low bits.
  function Low(y: bv8, k: nat): bv8
    requires k <= 8
  {
    if k == 0 then 0 else Add(Low(y, k - 1), Scale(BitSet(y, k - 1), Basis(k - 1)))
  }

  lemma LowIsAll(y: bv8)
    ensures Low(y, 8) == y
  {
    assert Low(y, 4) == y & 0x0F by {
      assert Low(y, 1) == y & 0x01;
      assert Low(y, 2) == y & 0x03;
      assert Low(y, 3) == y & 0x07;
    }
    assert Low(y, 5) == y & 0x1F;
    assert Low(y, 6) == y & 0x3F;
    assert Low(y, 7) == y & 0x7F;
  }

  lemma AdditiveZero(f: bv8 -> bv8)
    requires Additive(f)
    ensures f(0) == 0
  {
    AddZero(0);
    AddZero(f(0));
    assert f(Add(0, 0)) == Add(f(0), f(0));
    hide Add;
  }

  lemma AdditiveStep(f: bv8 -> bv8, g: bv8 -> bv8, a: bv8, c: bool, b: bv8)
    requires Additive(f) && Additive(g) && f(a) == g(a) && f(b) == g(b)
    ensures f(Add(a, Scale(c, b))) == g(Add(a, Scale(c, b)))
  {
    hide Add;
    AdditiveZero(f);
    AdditiveZero(g);
    assert f(Add(a, Scale(c, b))) == Add(f(a), f(Scale(c, b)));
  }

  lemma {:induction false} AdditiveLow(f: bv8 -> bv8, g: bv8 -> bv8, y: bv8, k: nat)
    requires k <= 8 && Additive(f) && Additive(g)
    requires forall i: nat :: i < 8 ==> f(Basis(i)) == g(Basis(i))
    ensures f(Low(y, k)) == g(Low(y, k))
  {
    hide Add, BitSet, Basis, Scale;
    if k == 0 {
      AdditiveZero(f);
      AdditiveZero(g);
    } else {
      AdditiveLow(f, g, y, k - 1);
      AdditiveStep(f, g, Low(y, k - 1), BitSet(y, k - 1), Basis(k - 1));
    }
  }

  lemma AdditiveEqual(f: bv8 -> bv8, g: bv8 -> bv8, y: bv8)
    requires Additive(f) && Additive(g)
    requires forall i: nat :: i < 8 ==> f(Basis(i)) == g(Basis(i))
    ensures f(y) == g(y)
  {
    AdditiveLow(f, g, y, 8);
    LowIsAll(y);
    hide *;
  }

  // ---- the ring laws ----

  lemma MulAddLeft(a: bv8, b: bv8, y: bv8)
    ensures Mul(Add(a, b), y) == Add(Mul(a, y), Mul(b, y))
  {
    HornerAddLeft(a, b, y, 8);
    hide Add, Horner;
  }

  lemma MulAddRight(x: bv8, a: bv8, b: bv8)
    ensures Mul(x, Add(a, b)) == Add(Mul(x, a), Mul(x, b))
  {
    HornerAddRight(x, a, b, 8);
    hide Add, Horner;
  }

  lemma MulXTimeLeft(x: bv8, y: bv8)
    ensures Mul(XTime(x), y) == XTime(Mul(x, y))
  {
    HornerXTime(x, y, 8);
    hide XTime, Horner;
  }

  function Shift(x: bv8, n: nat): bv8 {
    if n == 0 then x else XTime(Shift(x, n - 1))
  }

  // Multiplying by x^i is shifting i times.
  lemma {:induction false} HornerBasis(x: bv8, i: nat, k: nat)
    requires i < 8 && k <= 8
    ensures Horner(x, Basis(i), k) == if 8 - k <= i then Shift(x, k - 8 + i) else 0
  {
    if k > 0 {
      HornerBasis(x, i, k - 1);
      assert BitSet(Basis(i), 8 - k) <==> 8 - k == i;
      hide Add, XTime, BitSet, Basis;
      XTimeZero(0);
      AddZero(x);
      if 8 - k < i { AddZero(Shift(x, k - 8 + i)); } else { AddZero(0); }
    }
  }

  lemma MulBasis(x: bv8, i: nat)
    requires i < 8
    ensures Mul(x, Basis(i)) == Shift(x, i)
  {
    HornerBasis(x, i, 8);
    hide Horner, Basis;
  }

  lemma BasisIsShift(i: nat)
    requires i < 8
    ensures Basis(i) == Shift(1, i)
    ensures i < 7 ==> XTime(Basis(i)) == Basis(i + 1)
  {
    if i > 0 {
      BasisIsShift(i - 1);
    }
  }

  lemma {:induction false} ShiftMul(x: bv8, y: bv8, n: nat)
    ensures Mul(Shift(x, n), y) == Shift(Mul(x, y), n)
  {
    hide Mul, XTime;
    if n > 0 {
      ShiftMul(x, y, n - 1);
      MulXTimeLeft(Shift(x, n - 1), y);
    }
  }

  lemma MulOne(y: bv8)
    ensures Mul(1, y) == y && Mul(y, 1) == y
  {
    forall a, b ensures Mul(1, Add(a, b)) == Add(Mul(1, a), Mul(1, b)) { MulAddRight(1, a, b); }
    forall i: nat | i < 8 ensures Mul(1, Basis(i)) == Basis(i) {
      MulBasis(1, i);
      BasisIsShift(i);
    }
    AdditiveEqual(z => Mul(1, z), z => z, y);
    MulBasis(y, 0);
    hide Mul, Add;
  }

  lemma MulComm(x: bv8, y: bv8)
    ensures Mul(x, y) == Mul(y, x)
  {
    hide Mul, Add, Basis;
    forall a, b ensures Mul(x, Add(a, b)) == Add(Mul(x, a), Mul(x, b)) { MulAddRight(x, a, b); }
    forall a, b ensures Mul(Add(a, b), x) == Add(Mul(a, x), Mul(b, x)) { MulAddLeft(a, b, x); }
    forall i: nat | i < 8 ensures Mul(x, Basis(i)) == Mul(Basis(i), x) {
      MulBasis(x, i);
      BasisIsShift(i);
      ShiftMul(1, x, i);
      MulOne(x);
    }
    AdditiveEqual(z => Mul(x, z), z => Mul(z, x), y);
  }

  lemma {:induction false} HornerAssoc(a: bv8, b: bv8, c: bv8, k: nat)
    requires k <= 8
    ensures Horner(Mul(a, b), c, k) == Mul(a, Horner(b, c, k))
  {
    hide Mul, Add, XTime, BitSet;
    MulZero(a);
    if k > 0 {
      var h, t := Horner(b, c, k - 1), Scale(BitSet(c, 8 - k), b);
      HornerAssoc(a, b, c, k - 1);
      MulAddRight(a, XTime(h), t);
      MulComm(a, XTime(h));
      MulXTimeLeft(h, a);
      MulComm(a, h);
    }
  }

  lemma MulAssoc(a: bv8, b: bv8, c: bv8)
    ensures Mul(Mul(a, b), c) == Mul(a, Mul(b, c))
  {
    HornerAssoc(a, b, c, 8);
    hide Horner;
  }

  lemma MulZero(a: bv8)
    ensures Mul(a, 0) == 0 && Mul(0, a) == 0
  {
    AddZero(0);
    AddZero(Mul(a, 0));
    AddZero(Mul(0, a));
    MulAddRight(a, 0, 0);
    MulAddLeft(0, 0, a);
    hide Mul, Add;
  }

  // ---- no zero divisors ----

  function Next(z: bv8, x: bv8, y: bv8, m: bv8): bv8 {
    (z << 1) ^ ((z >> 7) * 0x1D) ^ if y & m != 0 then x else 0
  }

  // The partial results of a product, one for each bit of b.
  predicate Partials(a: bv8, b: bv8, z0: bv8, z1: bv8, z2: bv8, z3: bv8, z4: bv8, z5: bv8, z6: bv8, z7: bv8) {
    && z0 == Next(0, a, b, 0x80) && z1 == Next(z0, a, b, 0x40) && z2 == Next(z1, a, b, 0x20)
    && z3 == Next(z2, a, b, 0x10) && z4 == Next(z3, a, b, 0x08) && z5 == Next(z4, a, b, 0x04)
    && z6 == Next(z5, a, b, 0x02) && z7 == Next(z6, a, b, 0x01)
  }

  // Of two odd bytes the last one is not 0.
  lemma OddProduct(a: bv8, b: bv8, z0: bv8, z1: bv8, z2: bv8, z3: bv8, z4: bv8, z5: bv8, z6: bv8, z7: bv8)
    requires a & 0x01 != 0 && b & 0x01 != 0
    ensures Partials(a, b, z0, z1, z2, z3, z4, z5, z6, z7) ==> z7 != 0
  {}

  lemma BitSetMask(y: bv8, i: nat)
    requires i < 8
    ensures BitSet(y, i) <==> y & Basis(i) != 0
  {
    match i {
      case 0 => case 1 => case 2 => case 3 => case 4 => case 5 => case 6 => case 7 =>
    }
  }

  lemma HornerNext(x: bv8, y: bv8, k: nat)
    requires k < 8
    ensures Horner(x, y, k + 1) == Next(Horner(x, y, k), x, y, Basis(7 - k))
  {
    BitSetMask(y, 7 - k);
    hide BitSet, Basis;
  }

  lemma Masks()
    ensures Basis(0) == 0x01 && Basis(1) == 0x02 && Basis(2) == 0x04 && Basis(3) == 0x08
    ensures Basis(4) == 0x10 && Basis(5) == 0x20 && Basis(6) == 0x40 && Basis(7) == 0x80
  {}

  lemma HornerNone(x: bv8, y: bv8)
    ensures Horner(x, y, 0) == 0
  {}

  lemma HornerPartials(a: bv8, b: bv8)
    ensures Partials(a, b, Horner(a, b, 1), Horner(a, b, 2), Horner(a, b, 3), Horner(a, b, 4),
                     Horner(a, b, 5), Horner(a, b, 6), Horner(a, b, 7), Horner(a, b, 8))
  {
    hide Next, Horner, Basis;
    Masks();
    HornerNone(a, b);
    HornerNext(a, b, 0);
    HornerNext(a, b, 1);
    HornerNext(a, b, 2);
    HornerNext(a, b, 3);
    HornerNext(a, b, 4);
    HornerNext(a, b, 5);
    HornerNext(a, b, 6);
    HornerNext(a, b, 7);
  }

  lemma OddMul(a: bv8, b: bv8)
    requires a & 0x01 != 0 && b & 0x01 != 0
    ensures Mul(a, b) != 0
  {
    hide Partials, Horner;
    HornerPartials(a, b);
    OddProduct(a, b, Horner(a, b, 1), Horner(a, b, 2), Horner(a, b, 3), Horner(a, b, 4),
               Horner(a, b, 5), Horner(a, b, 6), Horner(a, b, 7), Horner(a, b, 8));
  }

  lemma Halve(a: bv8)
    requires a & 0x01 == 0
    ensures XTime(a >> 1) == a && (a != 0 ==> a >> 1 < a && a >> 1 != 0)
  {}

  lemma NoZeroDivisors(a: bv8, b: bv8)
    requires a != 0 && b != 0
    ensures Mul(a, b) != 0
    decreases a, b
  {
    if a & 0x01 == 0 {
      Halve(a);
      NoZeroDivisors(a >> 1, b);
      MulXTimeLeft(a >> 1, b);
      XTimeZero(Mul(a >> 1, b));
    } else if b & 0x01 == 0 {
      Halve(b);
      NoZeroDivisors(a, b >> 1);
      MulComm(a, b);
      MulComm(a, b >> 1);
      MulXTimeLeft(b >> 1, a);
      XTimeZero(Mul(b >> 1, a));
    } else {
      OddMul(a, b);
    }
    hide *;
  }
}
