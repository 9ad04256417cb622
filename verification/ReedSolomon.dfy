/**
 Reed-Solomon coding over GF(256), as the QR encoder computes it: the generator
 polynomial, the remainder, and what the remainder is for. Polynomials are
 sequences of coefficients, highest power first.
 */
module ReedSolomon {
  import opened Gf256

  // The coefficient at position t, with zeros on both sides.
  function At(p: seq<bv8>, t: int): bv8 {
    if 0 <= t < |p| then p[t] else 0
  }

  function Eval(p: seq<bv8>, x: bv8): bv8 {
    if |p| == 0 then 0 else Add(Mul(Eval(p[..|p| - 1], x), x), p[|p| - 1])
  }

  // p * (x + r)
  function MulLinear(p: seq<bv8>, r: bv8): (q: seq<bv8>)
    ensures |q| == |p| + 1
  {
    seq(|p| + 1, t => Add(At(p, t), Mul(At(p, t - 1), r)))
  }

  // The product of (x + 2^i) for i < degree.
  function Generator(degree: nat): (g: seq<bv8>)
    ensures |g| == degree + 1
  {
    if degree == 0 then [1] else MulLinear(Generator(degree - 1), Pow(2, degree - 1))
  }

  // One division step: bring down `d`, subtract the multiple of the monic
  // divisor [1] + tail that cancels the leading coefficient.
  function RemainderStep(rem: seq<bv8>, d: bv8, tail: seq<bv8>): (r: seq<bv8>)
    requires |rem| == |tail| > 0
    ensures |r| == |tail|
  {
    seq(|tail|, j requires 0 <= j < |tail| => Add(At(rem, j + 1), Mul(tail[j], Add(d, rem[0]))))
  }

  function Remainder(data: seq<bv8>, tail: seq<bv8>): (r: seq<bv8>)
    requires |tail| > 0
    ensures |r| == |tail|
  {
    if |data| == 0 then seq(|tail|, _ => 0)
    else RemainderStep(Remainder(data[..|data| - 1], tail), data[|data| - 1], tail)
  }

  lemma MulLinearAt(p: seq<bv8>, r: bv8, t: int)
    ensures At(MulLinear(p, r), t) == Add(At(p, t), Mul(At(p, t - 1), r))
  {
    MulZero(r);
    AddZero(0);
    hide Add, Mul;
  }

  // One pass of the source's inner loop: gen[j] = gen[j] * root + gen[j + 1].
  function TimesLinear(gen: seq<bv8>, root: bv8): (r: seq<bv8>)
    ensures |r| == |gen|
  {
    seq(|gen|, j requires 0 <= j < |gen| => Add(At(gen, j + 1), Mul(gen[j], root)))
  }

  method MulRoot(gen: array<bv8>, degree: nat, root: bv8)
    requires 1 <= degree <= gen.Length
    modifies gen
    ensures gen[..degree] == TimesLinear(old(gen[..degree]), root)
    ensures gen[degree..] == old(gen[degree..])
  {
    hide Add, Mul;
    ghost var g := gen[..degree];
    for j := 0 to degree
      invariant forall k :: 0 <= k < j ==> gen[k] == Add(At(g, k + 1), Mul(g[k], root))
      invariant forall k :: j <= k < gen.Length ==> gen[k] == old(gen[k])
    {
      var t := GfMul(gen[j], root);
      gen[j] := t;
      if j + 1 < degree {
        AddComm(t, gen[j + 1]);
        gen[j] := Add(gen[j], gen[j + 1]);
      } else {
        AddZero(t);
      }
    }
  }

  // gen holds the last |gen| coefficients of p, right-aligned.
  ghost predicate RightAligned(gen: seq<bv8>, p: seq<bv8>) {
    forall j :: 0 <= j < |gen| ==> gen[j] == At(p, j + |p| - |gen|)
  }

  lemma AlignStep(gen: seq<bv8>, p: seq<bv8>, root: bv8)
    requires RightAligned(gen, p)
    ensures RightAligned(TimesLinear(gen, root), MulLinear(p, root))
  {
    hide Add, Mul, MulLinear;
    var next, n := TimesLinear(gen, root), |gen|;
    forall j | 0 <= j < n ensures next[j] == At(MulLinear(p, root), j + |p| + 1 - n) {
      MulLinearAt(p, root, j + |p| + 1 - n);
      assert gen[j] == At(p, j + |p| - n) && At(gen, j + 1) == At(p, j + |p| + 1 - n);
    }
  }

  lemma AlignStart(gen: seq<bv8>)
    requires |gen| > 0 && gen[|gen| - 1] == 1 && forall k :: 0 <= k < |gen| - 1 ==> gen[k] == 0
    ensures RightAligned(gen, [1])
  {}

  lemma AlignEnd(gen: seq<bv8>, p: seq<bv8>)
    requires RightAligned(gen, p) && |p| == |gen| + 1
    ensures gen == p[1..]
  {}

  lemma GeneratorStep(i: nat)
    ensures Pow(2, 0) == 1 && Pow(2, i + 1) == Mul(Pow(2, i), 2)
    ensures Generator(i + 1) == MulLinear(Generator(i), Pow(2, i))
    ensures Generator(0) == [1]
  {}

  method RsGenerator(degree: nat, gen: array<bv8>)
    requires 1 <= degree <= 255 && degree <= gen.Length
    modifies gen
    ensures gen[..degree] == Generator(degree)[1..]
    ensures gen[degree..] == old(gen[degree..])
  {
    hide Add, Mul, TimesLinear, MulLinear, RightAligned, Generator, Pow;
    for j := 0 to degree
      invariant forall k :: 0 <= k < j ==> gen[k] == 0
      invariant gen[degree..] == old(gen[degree..])
    {
      gen[j] := 0;
    }
    gen[degree - 1] := 1;
    var root := 1;
    GeneratorStep(0);
    AlignStart(gen[..degree]);
    for i := 0 to degree
      invariant root == Pow(2, i) && RightAligned(gen[..degree], Generator(i))
      invariant gen[degree..] == old(gen[degree..])
    {
      AlignStep(gen[..degree], Generator(i), root);
      GeneratorStep(i);
      MulRoot(gen, degree, root);
      root := GfMul(root, 2);
    }
    AlignEnd(gen[..degree], Generator(degree));
  }

  // memmove(out, out + 1, degree - 1); out[degree - 1] = 0
  method ShiftLeft(out: array<bv8>, base: nat, degree: nat)
    requires 1 <= degree && base + degree <= out.Length
    modifies out
    ensures out[base..base + degree] == old(out[base + 1..base + degree]) + [0]
    ensures forall k :: 0 <= k < base || base + degree <= k < out.Length ==> out[k] == old(out[k])
  {
    forall j | base <= j < base + degree - 1 { out[j] := out[j + 1]; }
    out[base + degree - 1] := 0;
  }

  // out[j] ^= gen[j] * factor
  method AddMultiple(out: array<bv8>, base: nat, gen: array<bv8>, degree: nat, factor: bv8)
    requires degree <= gen.Length && base + degree <= out.Length && out != gen
    modifies out
    ensures forall k :: base <= k < base + degree ==> out[k] == Add(old(out[k]), Mul(gen[k - base], factor))
    ensures forall k :: 0 <= k < base || base + degree <= k < out.Length ==> out[k] == old(out[k])
  {
    hide Add, Mul;
    for j := 0 to degree
      invariant forall k :: base <= k < base + j ==> out[k] == Add(old(out[k]), Mul(gen[k - base], factor))
      invariant forall k :: 0 <= k < base || base + j <= k < out.Length ==> out[k] == old(out[k])
    {
      var t := GfMul(gen[j], factor);
      out[base + j] := Add(out[base + j], t);
    }
  }

  // One data byte of the source's loop, in place on out[base..base + degree].
  method DivideByte(out: array<bv8>, base: nat, gen: array<bv8>, degree: nat, d: bv8)
    requires 1 <= degree <= gen.Length && base + degree <= out.Length && out != gen
    modifies out
    ensures out[base..base + degree] == RemainderStep(old(out[base..base + degree]), d, gen[..degree])
    ensures forall k :: 0 <= k < base || base + degree <= k < out.Length ==> out[k] == old(out[k])
  {
    hide Add, Mul;
    ghost var rem := out[base..base + degree];
    var factor := Add(d, out[base]);
    ShiftLeft(out, base, degree);
    ghost var low := out[base..base + degree];
    AddMultiple(out, base, gen, degree, factor);
    ghost var res := out[base..base + degree];
    forall j | 0 <= j < degree ensures res[j] == Add(At(rem, j + 1), Mul(gen[..degree][j], factor)) {
      assert out[base + j] == res[j] && low[j] == At(rem, j + 1);
    }
    hide At;
  }

  lemma RemainderNext(d: seq<bv8>, i: nat, tail: seq<bv8>)
    requires i < |d| && |tail| > 0
    ensures Remainder(d[..i + 1], tail) == RemainderStep(Remainder(d[..i], tail), d[i], tail)
  {
    hide RemainderStep;
    assert d[..i + 1][..i] == d[..i];
  }

  method RsRemainder(data: array<bv8>, from: nat, len: nat, gen: array<bv8>, degree: nat,
                     out: array<bv8>, base: nat)
    requires 1 <= degree <= gen.Length && from + len <= data.Length && base + degree <= out.Length
    requires out != data && out != gen
    modifies out
    ensures out[base..base + degree] == Remainder(data[from..from + len], gen[..degree])
    ensures forall k :: 0 <= k < base || base + degree <= k < out.Length ==> out[k] == old(out[k])
  {
    hide RemainderStep;
    ghost var d, tail := data[from..from + len], gen[..degree];
    for j := 0 to degree
      invariant forall k :: base <= k < base + j ==> out[k] == 0
      invariant forall k :: 0 <= k < base || base + degree <= k < out.Length ==> out[k] == old(out[k])
    {
      out[base + j] := 0;
    }
    assert out[base..base + degree] == Remainder(d[..0], tail);
    for i := 0 to len
      invariant out[base..base + degree] == Remainder(d[..i], tail)
      invariant forall k :: 0 <= k < base || base + degree <= k < out.Length ==> out[k] == old(out[k])
    {
      DivideByte(out, base, gen, degree, data[from + i]);
      RemainderNext(d, i, tail);
    }
    assert d[..len] == d;
  }
}
