/**
 What the Reed-Solomon arithmetic is for. Data followed by its remainder is a
 codeword: it vanishes at the first `degree` powers of 2. Two codewords of at
 most 255 bytes that differ at all differ in more than `degree` places.
 */
module RsCode {
  import opened Gf256
  import opened ReedSolomon

  ghost predicate IsCodeword(c: seq<bv8>, degree: nat) {
    forall i: nat :: i < degree ==> Eval(c, Pow(2, i)) == 0
  }

  // ---- evaluation ----

  lemma EvalSnoc(p: seq<bv8>, c: bv8, x: bv8)
    ensures Eval(p + [c], x) == Add(Mul(Eval(p, x), x), c)
  {
    assert (p + [c])[..|p|] == p;
    hide Add, Mul;
  }

  lemma {:induction false} EvalConcat(p: seq<bv8>, q: seq<bv8>, x: bv8)
    ensures Eval(p + q, x) == Add(Mul(Eval(p, x), Pow(x, |q|)), Eval(q, x))
  {
    hide Add, Mul;
    if |q| == 0 {
      assert p + q == p;
      MulOne(Eval(p, x));
      AddZero(Eval(p, x));
    } else {
      var n := |q| - 1;
      var q', c := q[..n], q[n];
      var e, w := Eval(p, x), Pow(x, n);
      assert p + q == (p + q') + [c] && q == q' + [c];
      calc {
        Eval(p + q, x);
        { EvalSnoc(p + q', c, x); EvalConcat(p, q', x); }
        Add(Mul(Add(Mul(e, w), Eval(q', x)), x), c);
        { MulAddLeft(Mul(e, w), Eval(q', x), x); MulAssoc(e, w, x); }
        Add(Add(Mul(e, Pow(x, |q|)), Mul(Eval(q', x), x)), c);
        { AddAssoc(Mul(e, Pow(x, |q|)), Mul(Eval(q', x), x), c); EvalSnoc(q', c, x); }
        Add(Mul(e, Pow(x, |q|)), Eval(q, x));
      }
    }
  }

  lemma EvalCons(a: bv8, q: seq<bv8>, x: bv8)
    ensures Eval([a] + q, x) == Add(Mul(a, Pow(x, |q|)), Eval(q, x))
  {
    EvalConcat([a], q, x);
    EvalSnoc([], a, x);
    assert [] + [a] == [a];
    MulZero(x);
    AddZero(a);
    hide Add, Mul;
  }

  // Evaluation is linear.
  lemma {:induction false} EvalCombine(p: seq<bv8>, q: seq<bv8>, s: seq<bv8>, c: bv8, x: bv8)
    requires |p| == |q| == |s|
    requires forall i :: 0 <= i < |s| ==> s[i] == Add(p[i], Mul(q[i], c))
    ensures Eval(s, x) == Add(Eval(p, x), Mul(Eval(q, x), c))
  {
    hide Add, Mul;
    if |s| == 0 {
      MulZero(c);
      AddZero(0);
    } else {
      var n := |s| - 1;
      var ep, eq := Eval(p[..n], x), Eval(q[..n], x);
      calc {
        Eval(s, x);
        { EvalCombine(p[..n], q[..n], s[..n], c, x); }
        Add(Mul(Add(ep, Mul(eq, c)), x), Add(p[n], Mul(q[n], c)));
        { MulAddLeft(ep, Mul(eq, c), x); AddShuffle(Mul(ep, x), Mul(Mul(eq, c), x), p[n], Mul(q[n], c)); }
        Add(Eval(p, x), Add(Mul(Mul(eq, c), x), Mul(q[n], c)));
        { MulAssoc(eq, c, x); MulComm(c, x); MulAssoc(eq, x, c); MulAddLeft(Mul(eq, x), q[n], c); }
        Add(Eval(p, x), Mul(Eval(q, x), c));
      }
    }
  }

  lemma MulLinearValue(p: seq<bv8>, r: bv8, x: bv8)
    ensures Eval(MulLinear(p, r), x) == Mul(Eval(p, x), Add(x, r))
  {
    hide Add, Mul;
    var up, low := p + [0], [0] + p;
    forall i | 0 <= i <= |p| ensures MulLinear(p, r)[i] == Add(up[i], Mul(low[i], r)) {
      MulLinearAt(p, r, i);
    }
    EvalCombine(up, low, MulLinear(p, r), r, x);
    EvalSnoc(p, 0, x);
    EvalCons(0, p, x);
    MulZero(Pow(x, |p|));
    AddZero(Mul(Eval(p, x), x));
    AddZero(Eval(p, x));
    MulAddRight(Eval(p, x), x, r);
  }

  // The value at x of the product of (x + 2^i) for i < degree.
  function RootProduct(degree: nat, x: bv8): bv8 {
    if degree == 0 then 1 else Mul(RootProduct(degree - 1, x), Add(x, Pow(2, degree - 1)))
  }

  // As a function on the field, the generator is that product; it is monic.
  lemma {:induction false} GeneratorValue(degree: nat, x: bv8)
    ensures Eval(Generator(degree), x) == RootProduct(degree, x)
    ensures Generator(degree)[0] == 1
  {
    hide Add, Mul, Pow, MulLinear;
    if degree == 0 {
      EvalSnoc([], 1, x);
      assert [] + [1] == [1];
      MulZero(x);
      AddZero(1);
    } else {
      GeneratorValue(degree - 1, x);
      MulLinearValue(Generator(degree - 1), Pow(2, degree - 1), x);
      MulLinearAt(Generator(degree - 1), Pow(2, degree - 1), 0);
      MulZero(Pow(2, degree - 1));
      AddZero(1);
    }
  }

  lemma {:induction false} RootProductZero(degree: nat, i: nat)
    requires i < degree
    ensures RootProduct(degree, Pow(2, i)) == 0
  {
    hide Add, Mul, Pow;
    if i == degree - 1 {
      AddZero(Pow(2, i));
    } else {
      RootProductZero(degree - 1, i);
    }
    MulZero(RootProduct(degree - 1, Pow(2, i)));
    MulZero(Add(Pow(2, i), Pow(2, degree - 1)));
  }

  lemma GeneratorIsCodeword(degree: nat)
    ensures IsCodeword(Generator(degree), degree)
  {
    forall i: nat | i < degree ensures Eval(Generator(degree), Pow(2, i)) == 0 {
      GeneratorValue(degree, Pow(2, i));
      RootProductZero(degree, i);
    }
  }

  // ---- the remainder ----

  // At a root x of the monic divisor, the remainder has the value of data * x^degree.
  lemma {:induction false} RemainderValue(data: seq<bv8>, tail: seq<bv8>, x: bv8)
    requires |tail| > 0 && Eval([1] + tail, x) == 0
    ensures Eval(Remainder(data, tail), x) == Mul(Eval(data, x), Pow(x, |tail|))
  {
    hide Add, Mul;
    var n := |tail|;
    var w := Pow(x, n);
    if |data| == 0 {
      EvalZeros(n, x);
      MulZero(w);
    } else {
      var m := |data| - 1;
      var rem, d := Remainder(data[..m], tail), data[m];
      RemainderValue(data[..m], tail, x);
      RemainderStepValue(rem, d, tail, x);
      calc {
        Eval(Remainder(data, tail), x);
        Add(Mul(Eval(rem, x), x), Mul(d, w));
        { MulAssoc(Eval(data[..m], x), w, x); MulComm(w, x); MulAssoc(Eval(data[..m], x), x, w); }
        Add(Mul(Mul(Eval(data[..m], x), x), w), Mul(d, w));
        { MulAddLeft(Mul(Eval(data[..m], x), x), d, w); }
        Mul(Eval(data, x), w);
      }
    }
  }

  lemma {:induction false} EvalZeros(n: nat, x: bv8)
    ensures Eval(seq(n, _ => 0), x) == 0
  {
    hide Add, Mul;
    if n > 0 {
      EvalZeros(n - 1, x);
      assert seq(n, _ => 0)[..n - 1] == seq(n - 1, _ => 0 as bv8);
      MulZero(x);
      AddZero(0);
    }
  }

  // A remainder step is a shift plus a multiple of the divisor's tail.
  lemma RemainderStepCombine(rem: seq<bv8>, d: bv8, tail: seq<bv8>, x: bv8)
    requires |rem| == |tail| > 0
    ensures Eval(RemainderStep(rem, d, tail), x)
         == Add(Mul(Eval(rem[1..], x), x), Mul(Eval(tail, x), Add(d, rem[0])))
  {
    hide Add, Mul, Eval;
    EvalCombine(rem[1..] + [0], tail, RemainderStep(rem, d, tail), Add(d, rem[0]), x);
    EvalSnoc(rem[1..], 0, x);
    AddZero(Mul(Eval(rem[1..], x), x));
  }

  lemma EvalHead(p: seq<bv8>, x: bv8)
    requires |p| > 0
    ensures Mul(Eval(p, x), x) == Add(Mul(p[0], Pow(x, |p|)), Mul(Eval(p[1..], x), x))
  {
    assert [p[0]] + p[1..] == p;
    EvalCons(p[0], p[1..], x);
    hide Add, Mul, Eval;
    MulAddLeft(Mul(p[0], Pow(x, |p| - 1)), Eval(p[1..], x), x);
    MulAssoc(p[0], Pow(x, |p| - 1), x);
  }

  lemma RemainderStepValue(rem: seq<bv8>, d: bv8, tail: seq<bv8>, x: bv8)
    requires |rem| == |tail| > 0 && Eval([1] + tail, x) == 0
    ensures Eval(RemainderStep(rem, d, tail), x) == Add(Mul(Eval(rem, x), x), Mul(d, Pow(x, |tail|)))
  {
    hide *;
    var w := Pow(x, |tail|);
    var high, low := Mul(rem[0], w), Mul(Eval(rem[1..], x), x);
    EvalCons(1, tail, x);
    MulOne(w);
    AddCancel(w, Eval(tail, x));
    calc {
      Eval(RemainderStep(rem, d, tail), x);
      { RemainderStepCombine(rem, d, tail, x); }
      Add(low, Mul(w, Add(d, rem[0])));
      { MulComm(w, Add(d, rem[0])); MulAddLeft(d, rem[0], w); }
      Add(low, Add(Mul(d, w), high));
      { AddComm(Mul(d, w), high); AddAssoc(low, high, Mul(d, w)); AddComm(low, high); }
      Add(Add(high, low), Mul(d, w));
      { EvalHead(rem, x); }
      Add(Mul(Eval(rem, x), x), Mul(d, w));
    }
  }

  lemma AddCancel(a: bv8, b: bv8)
    requires Add(a, b) == 0
    ensures a == b
  {
    AddAssoc(a, b, b);
    AddZero(a);
    AddZero(b);
    hide Add;
  }

  // Data followed by its remainder is a codeword.
  lemma RemainderMakesCodeword(data: seq<bv8>, degree: nat)
    requires degree > 0
    ensures IsCodeword(data + Remainder(data, Generator(degree)[1..]), degree)
  {
    hide Add, Mul, Pow, Remainder, Generator;
    var g := Generator(degree);
    GeneratorIsCodeword(degree);
    forall i: nat | i < degree ensures Eval(data + Remainder(data, g[1..]), Pow(2, i)) == 0 {
      var x := Pow(2, i);
      GeneratorValue(degree, x);
      assert [1] + g[1..] == g;
      RemainderValue(data, g[1..], x);
      EvalConcat(data, Remainder(data, g[1..]), x);
      AddZero(Mul(Eval(data, x), Pow(x, degree)));
    }
  }

  // ---- distance ----

  // The powers of 2 below 255 are distinct: 2 generates the multiplicative group.

  lemma {:induction false} PowAdd(x: bv8, m: nat, n: nat)
    ensures Pow(x, m + n) == Mul(Pow(x, m), Pow(x, n))
  {
    hide Mul;
    if n == 0 {
      MulOne(Pow(x, m));
    } else {
      PowAdd(x, m, n - 1);
      MulAssoc(Pow(x, m), Pow(x, n - 1), x);
    }
  }

  lemma ProductTable()
    ensures Mul(0x08, 0x04) == 0x20 && Mul(0x20, 0x20) == 0x74 && Mul(0x74, 0x20) == 0x26
    ensures Mul(0x26, 0x04) == 0x98 && Mul(0x98, 0x98) == 0x4E && Mul(0x4E, 0x98) == 0x0A
    ensures Mul(0x0A, 0x98) == 0x99 && Mul(0x99, 0x98) == 0xD6
    ensures Mul(0xD6, 0xD6) == 0xD7 && Mul(0xD7, 0xD6) == 0x01
  {}

  lemma SmallPowers()
    ensures Pow(2, 1) == 0x02 && Pow(2, 2) == 0x04 && Pow(2, 3) == 0x08
  {
    assert Mul(1, 2) == 2 && Mul(2, 2) == 4 && Mul(4, 2) == 8;
    hide Mul;
  }

  lemma PowTable()
    ensures Pow(2, 1) == 0x02 && Pow(2, 3) == 0x08 && Pow(2, 5) == 0x20 && Pow(2, 15) == 0x26
    ensures Pow(2, 17) == 0x98 && Pow(2, 51) == 0x0A && Pow(2, 85) == 0xD6 && Pow(2, 255) == 1
  {
    hide *;
    SmallPowers();
    ProductTable();
    PowAdd(2, 3, 2);
    PowAdd(2, 5, 5);
    PowAdd(2, 10, 5);
    PowAdd(2, 15, 2);
    PowAdd(2, 17, 17);
    PowAdd(2, 34, 17);
    PowAdd(2, 51, 17);
    PowAdd(2, 68, 17);
    PowAdd(2, 85, 85);
    PowAdd(2, 170, 85);
  }

  lemma {:induction false} PowPeriod(t: nat, q: nat, r: nat)
    requires Pow(2, t) == 1
    ensures Pow(2, q * t + r) == Pow(2, r)
  {
    hide Pow, Mul;
    if q > 0 {
      PowPeriod(t, q - 1, r);
      assert q * t + r == t + ((q - 1) * t + r);
      PowAdd(2, t, (q - 1) * t + r);
      MulOne(Pow(2, r));
    }
  }

  // The divisors of 255 below it.
  lemma DivisorOf255(t: nat, q: nat)
    requires q * t == 255 && t < 255
    ensures t in {1, 3, 5, 15, 17, 51, 85}
  {
    assert q > 1;
    if t <= 15 {
      SmallDivisor(t, q);
    } else {
      assert q <= 15;
      SmallDivisor(q, t);
    }
  }

  lemma SmallDivisor(d: nat, e: nat)
    requires d * e == 255 && d <= 15
    ensures (d, e) in {(1, 255), (3, 85), (5, 51), (15, 17)}
  {
    var ds := [0, 1, 2, 3, 4, 5, 6, 7, 8, 9, 10, 11, 12, 13, 14, 15];
    assert ds[d] == d;
  }

  lemma {:induction false} PowNotOne(t: nat)
    requires 0 < t < 255
    ensures Pow(2, t) != 1
    decreases t
  {
    PowTable();
    hide Pow;
    if Pow(2, t) == 1 {
      var q, r := 255 / t, 255 % t;
      PowPeriod(t, q, r);
      if r > 0 {
        PowNotOne(r);
      } else {
        DivisorOf255(t, q);
      }
    }
  }

  lemma PowDistinct(m: nat, n: nat)
    requires m < n < 255
    ensures Add(Pow(2, n), Pow(2, m)) != 0
  {
    PowNonzero(m);
    PowNotOne(n - m);
    hide *;
    var a, b := Pow(2, m), Pow(2, n - m);
    PowAdd(2, m, n - m);
    if Add(Pow(2, n), a) == 0 {
      AddCancel(Pow(2, n), a);
      MulAddRight(a, b, 1);
      MulOne(a);
      AddZero(a);
      if Add(b, 1) == 0 {
        AddCancel(b, 1);
      } else {
        NoZeroDivisors(a, Add(b, 1));
      }
    }
  }

  lemma {:induction false} PowNonzero(n: nat)
    ensures Pow(2, n) != 0
  {
    hide Mul;
    if n > 0 {
      PowNonzero(n - 1);
      NoZeroDivisors(Pow(2, n - 1), 2);
    }
  }

  // The number of nonzero bytes.
  function Weight(c: seq<bv8>): nat {
    if |c| == 0 then 0 else (if c[0] != 0 then 1 else 0) + Weight(c[1..])
  }

  // The number of positions in which two sequences differ.
  function Distance(c: seq<bv8>, d: seq<bv8>): nat
    requires |c| == |d|
  {
    if |c| == 0 then 0 else (if c[0] != d[0] then 1 else 0) + Distance(c[1..], d[1..])
  }

  // Sum of c[j] * p(X_j), where X_j = 2^(|c| - 1 - j) is the locator of position j.
  function Weighted(c: seq<bv8>, p: seq<bv8>): bv8 {
    if |c| == 0 then 0 else Add(Mul(c[0], Eval(p, Pow(2, |c| - 1))), Weighted(c[1..], p))
  }

  // The product of (x + X_j) over the nonzero positions j of c.
  function Locator(c: seq<bv8>): (p: seq<bv8>)
    ensures |p| == Weight(c) + 1
  {
    if |c| == 0 then [1]
    else if c[0] == 0 then Locator(c[1..])
    else MulLinear(Locator(c[1..]), Pow(2, |c| - 1))
  }

  lemma {:induction false} PowMul(x: bv8, m: nat, n: nat)
    ensures Pow(Pow(x, m), n) == Pow(x, m * n)
  {
    hide Mul;
    if n > 0 {
      PowMul(x, m, n - 1);
      PowAdd(x, m * (n - 1), m);
      assert m * (n - 1) + m == m * n;
    } else {
      assert m * n == 0;
    }
  }

  // Splitting off the leading coefficient of p.
  lemma {:induction false} WeightedSplit(c: seq<bv8>, a: bv8, q: seq<bv8>)
    ensures Weighted(c, [a] + q) == Add(Mul(a, Eval(c, Pow(2, |q|))), Weighted(c, q))
  {
    hide Add, Mul, Pow, Eval;
    var y := Pow(2, |q|);
    if |c| == 0 {
      EvalEmpty(y);
      MulZero(a);
      AddZero(0);
    } else {
      var m, c0, c' := |c| - 1, c[0], c[1..];
      var x := Pow(2, m);
      var e, w, s := Eval(q, x), Weighted(c', q), Mul(c0, Pow(y, m));
      assert c == [c0] + c';
      calc {
        Weighted(c, [a] + q);
        { EvalCons(a, q, x); WeightedSplit(c', a, q); }
        Add(Mul(c0, Add(Mul(a, Pow(x, |q|)), e)), Add(Mul(a, Eval(c', y)), w));
        { PowMul(2, m, |q|); PowMul(2, |q|, m); assert m * |q| == |q| * m; MulAddRight(c0, Mul(a, Pow(y, m)), e); }
        Add(Add(Mul(c0, Mul(a, Pow(y, m))), Mul(c0, e)), Add(Mul(a, Eval(c', y)), w));
        { MulAssoc(c0, a, Pow(y, m)); MulComm(c0, a); MulAssoc(a, c0, Pow(y, m)); }
        Add(Add(Mul(a, s), Mul(c0, e)), Add(Mul(a, Eval(c', y)), w));
        { AddShuffle(Mul(a, s), Mul(c0, e), Mul(a, Eval(c', y)), w); }
        Add(Add(Mul(a, s), Mul(a, Eval(c', y))), Weighted(c, q));
        { MulAddRight(a, s, Eval(c', y)); EvalCons(c0, c', y); }
        Add(Mul(a, Eval(c, y)), Weighted(c, q));
      }
    }
  }

  lemma EvalEmpty(x: bv8) ensures Eval([], x) == 0 {}

  // A codeword is orthogonal to every polynomial of degree below `degree`.
  lemma {:induction false} CodewordOrthogonal(c: seq<bv8>, p: seq<bv8>, degree: nat)
    requires IsCodeword(c, degree) && |p| <= degree
    ensures Weighted(c, p) == 0
  {
    hide Add, Mul, Pow, Eval;
    if |p| == 0 {
      WeightedEmpty(c);
    } else {
      assert p == [p[0]] + p[1..];
      WeightedSplit(c, p[0], p[1..]);
      CodewordOrthogonal(c, p[1..], degree);
      MulZero(p[0]);
      AddZero(0);
    }
  }

  lemma {:induction false} WeightedEmpty(c: seq<bv8>)
    ensures Weighted(c, []) == 0
  {
    hide Add, Mul, Pow;
    if |c| > 0 {
      WeightedEmpty(c[1..]);
      MulZero(c[0]);
      AddZero(0);
    }
  }

  // The locator vanishes at the nonzero positions' locators, and at no later power.
  lemma {:induction false} LocatorNonzero(c: seq<bv8>, n: nat)
    requires |c| <= n < 255
    ensures Eval(Locator(c), Pow(2, n)) != 0
  {
    hide Add, Mul, Pow;
    if |c| == 0 {
      EvalSnoc([], 1, Pow(2, n));
      assert [] + [1] == [1];
      MulZero(Pow(2, n));
      AddZero(1);
    } else {
      LocatorNonzero(c[1..], n);
      if c[0] != 0 {
        MulLinearValue(Locator(c[1..]), Pow(2, |c| - 1), Pow(2, n));
        PowDistinct(|c| - 1, n);
        NoZeroDivisors(Eval(Locator(c[1..]), Pow(2, n)), Add(Pow(2, n), Pow(2, |c| - 1)));
      }
    }
  }

  ghost predicate Vanishes(c: seq<bv8>, p: seq<bv8>) {
    forall j :: 0 <= j < |c| && c[j] != 0 ==> Eval(p, Pow(2, |c| - 1 - j)) == 0
  }

  lemma {:induction false} LocatorVanishes(c: seq<bv8>)
    ensures Vanishes(c, Locator(c))
  {
    hide Add, Mul, Pow, Eval;
    if |c| > 0 {
      LocatorVanishes(c[1..]);
      var l, x0 := Locator(c[1..]), Pow(2, |c| - 1);
      forall j | 0 <= j < |c| && c[j] != 0 ensures Eval(Locator(c), Pow(2, |c| - 1 - j)) == 0 {
        var x := Pow(2, |c| - 1 - j);
        assert j > 0 ==> c[1..][j - 1] == c[j];
        if c[0] != 0 {
          MulLinearValue(l, x0, x);
          AddZero(x0);
          MulZero(Eval(l, x));
          MulZero(Add(x, x0));
        }
      }
    }
  }

  lemma {:induction false} WeightedVanishes(c: seq<bv8>, p: seq<bv8>)
    requires Vanishes(c, p)
    ensures Weighted(c, p) == 0
  {
    hide Add, Mul, Pow, Eval;
    if |c| > 0 {
      forall j | 0 <= j < |c| - 1 && c[1..][j] != 0 ensures Eval(p, Pow(2, |c| - 2 - j)) == 0 {
        assert c[j + 1] != 0;
      }
      WeightedVanishes(c[1..], p);
      MulZero(c[0]);
      MulZero(Eval(p, Pow(2, |c| - 1)));
      AddZero(0);
    }
  }

  // A nonzero codeword of at most 255 bytes has more than `degree` nonzero bytes.
  lemma {:induction false} CodewordWeight(c: seq<bv8>, degree: nat)
    requires |c| <= 255 && IsCodeword(c, degree) && Weight(c) > 0
    ensures Weight(c) > degree
  {
    hide Add, Mul, Pow, Eval;
    var m, c' := |c| - 1, c[1..];
    if c[0] == 0 {
      forall i: nat | i < degree ensures Eval(c', Pow(2, i)) == 0 {
        assert c == [0] + c';
        EvalCons(0, c', Pow(2, i));
        MulZero(Pow(Pow(2, i), m));
        AddZero(Eval(c', Pow(2, i)));
      }
      CodewordWeight(c', degree);
    } else if Weight(c) <= degree {
      var l := Locator(c');
      CodewordOrthogonal(c, l, degree);
      LocatorVanishes(c');
      WeightedVanishes(c', l);
      AddZero(Mul(c[0], Eval(l, Pow(2, m))));
      LocatorNonzero(c', m);
      NoZeroDivisors(c[0], Eval(l, Pow(2, m)));
    }
  }

  // The minimum distance of the code is degree + 1.
  lemma CodeDistance(c: seq<bv8>, d: seq<bv8>, degree: nat)
    requires |c| == |d| <= 255 && c != d
    requires IsCodeword(c, degree) && IsCodeword(d, degree)
    ensures Distance(c, d) > degree
  {
    hide Add, Mul, Pow, Eval;
    var s := seq(|c|, i requires 0 <= i < |c| => Add(c[i], d[i]));
    forall i: nat | i < degree ensures Eval(s, Pow(2, i)) == 0 {
      forall k | 0 <= k < |s| ensures s[k] == Add(c[k], Mul(d[k], 1)) { MulOne(d[k]); }
      EvalCombine(c, d, s, 1, Pow(2, i));
      MulZero(1);
      AddZero(0);
    }
    DifferenceWeight(c, d, s);
    CodewordWeight(s, degree);
  }

  lemma {:induction false} DistanceTriangle(c: seq<bv8>, r: seq<bv8>, d: seq<bv8>)
    requires |c| == |r| == |d|
    ensures Distance(c, d) <= Distance(c, r) + Distance(d, r)
  {
    if |c| > 0 {
      DistanceTriangle(c[1..], r[1..], d[1..]);
    }
  }

  // What was read with up to degree / 2 wrong bytes has one codeword that near:
  // the one that was written.
  lemma NearestCodeword(c: seq<bv8>, r: seq<bv8>, d: seq<bv8>, degree: nat)
    requires |c| == |r| == |d| <= 255 && IsCodeword(c, degree) && IsCodeword(d, degree)
    requires 2 * Distance(c, r) <= degree && 2 * Distance(d, r) <= degree
    ensures c == d
  {
    hide IsCodeword, Distance;
    DistanceTriangle(c, r, d);
    if c != d {
      CodeDistance(c, d, degree);
    }
  }

  lemma {:induction false} DifferenceWeight(c: seq<bv8>, d: seq<bv8>, s: seq<bv8>)
    requires |c| == |d| == |s| && forall i :: 0 <= i < |s| ==> s[i] == Add(c[i], d[i])
    ensures Weight(s) == Distance(c, d)
    ensures c != d ==> Weight(s) > 0
  {
    hide Add;
    if |c| > 0 {
      DifferenceWeight(c[1..], d[1..], s[1..]);
      AddZero(c[0]);
      if s[0] == 0 { AddCancel(c[0], d[0]); }
      if c[0] == d[0] && c[1..] == d[1..] {
        assert c == [c[0]] + c[1..] && d == [d[0]] + d[1..];
      }
    }
  }

  // The remainder is the only sequence of its length that completes data to a codeword.
  lemma RemainderUnique(data: seq<bv8>, degree: nat, ecc: seq<bv8>)
    requires degree > 0 && |ecc| == degree && |data| + degree <= 255
    requires IsCodeword(data + ecc, degree)
    ensures ecc == Remainder(data, Generator(degree)[1..])
  {
    hide Remainder, Generator, Eval, Pow;
    var rem := Remainder(data, Generator(degree)[1..]);
    RemainderMakesCodeword(data, degree);
    if ecc != rem {
      assert (data + ecc)[|data|..] == ecc && (data + rem)[|data|..] == rem;
      CodeDistance(data + ecc, data + rem, degree);
      SharedPrefix(data, ecc, rem);
    }
  }

  lemma {:induction false} SharedPrefix(p: seq<bv8>, c: seq<bv8>, d: seq<bv8>)
    requires |c| == |d|
    ensures Distance(p + c, p + d) <= |c|
  {
    if |p| == 0 {
      assert p + c == c && p + d == d;
      if |c| > 0 {
        SharedPrefix([], c[1..], d[1..]);
        assert [] + c[1..] == c[1..] && [] + d[1..] == d[1..];
      }
    } else {
      SharedPrefix(p[1..], c, d);
      assert (p + c)[1..] == p[1..] + c && (p + d)[1..] == p[1..] + d;
    }
  }
}
