/** The systematic encoder: a shift register that divides by the generator polynomial. */
module Encoder {
  import opened BitMultiplier
  import opened GF256
  import opened Sums
  import opened Polynomials
  import opened PowerSums
  import opened Forney
  import opened Words
  import opened Tables
  import opened Generator

  /** An array of symbols in polynomial form. */
  ghost predicate Symbols(a: array<int>)
    reads a
  {
    forall i :: 0 <= i < a.Length ==> 0 <= a[i] < 256
  }

  ghost function Contents(a: array<int>): (p: Poly)
    requires Symbols(a)
    reads a
    ensures p == a[..]
  {
    a[..]
  }

  // ----- evaluation of concatenations

  lemma EvalCons(a: Sym, p: Poly, x: Sym)
    ensures Eval([a] + p, x) == Add(a, Mul(x, Eval(p, x)))
  {
    hide Add, Mul, Monomials, Eval, Sum;
    EvalAppend([a], p, x);
    EvalConstant([a], x);
    PowOne(x);
  }

  lemma PowOne(x: Sym)
    ensures Pow(x, 1) == x
  {
    hide Mul;
    assert Pow(x, 0) == 1;
    MulOne(x);
  }

  lemma EvalAppend(a: Poly, b: Poly, x: Sym)
    ensures Eval(a + b, x) == Add(Eval(a, x), Mul(Pow(x, |a|), Eval(b, x)))
  {
    hide Add, Mul, At, Monomials, Pow, Sum;
    var k, n := |a|, |b|;
    var f, fa, fb := Monomials(a + b, x), Monomials(a, x), Monomials(b, x);
    var g := (i: nat) => Mul(Pow(x, k), fb(i));
    var h := (i: nat) => f(k + i);
    forall i: nat | i < n ensures g(i) == h(i) {
      AppendedTerm(a, b, x, i);
    }
    SumSame(n, g, h);
    SumSplit(k, n, f, h);
    SumTimes(n, Pow(x, k), fb, g);
    forall i: nat | i < k ensures f(i) == fa(i) {
      MonomialsAt(a + b, x, i);
      MonomialsAt(a, x, i);
      AtInside(a, i);
      AtInside(a + b, i);
    }
    SumSame(k, f, fa);
  }

  lemma AppendedTerm(a: Poly, b: Poly, x: Sym, i: nat)
    requires i < |b|
    ensures Monomials(a + b, x)(|a| + i) == Mul(Pow(x, |a|), Monomials(b, x)(i))
  {
    hide Mul, Pow, Monomials;
    MonomialsAt(a + b, x, |a| + i);
    MonomialsAt(b, x, i);
    PowAdd(x, |a|, i);
    MulSwap(Pow(x, |a|), b[i], Pow(x, i));
  }

  ghost function Scaled(c: Sym, p: Poly, n: nat): Poly
    requires |p| <= n
  {
    seq(n, (i: nat) => Mul(c, At(p, i)))
  }

  lemma EvalScaled(c: Sym, p: Poly, n: nat, x: Sym)
    requires |p| <= n
    ensures |Scaled(c, p, n)| == n && Eval(Scaled(c, p, n), x) == Mul(c, Eval(p, x))
  {
    hide Add, Mul, Pow, Monomials;
    var f, g := Monomials(Scaled(c, p, n), x), Monomials(p, x);
    forall i: nat | i < n ensures f(i) == Mul(c, g(i)) {
      MonomialsAt(Scaled(c, p, n), x, i);
      MonomialsAt(p, x, i);
      MulAssoc(c, At(p, i), Pow(x, i));
    }
    SumTimes(n, c, g, f);
    forall i: nat | |p| <= i < n ensures g(i) == 0 {
      MonomialsEnd(p, x, i);
    }
    SumTrim(|p|, n, g);
  }

  // ----- one step of the shift register

  /** w is the product of q and g: coefficient j is the sum of all q[i]*g[j-i]. */
  ghost predicate Quotient(w: Poly, q: Poly, g: Poly) {
    && |w| + 1 == |q| + |g|
    && forall j: int :: At(w, j) == Conv(q, g, j)
  }

  /** g divides w, with a quotient of n coefficients: as many as there are message symbols. */
  ghost predicate DivisibleBy(w: Poly, g: Poly, n: nat) {
    exists q: Poly :: |q| == n && Quotient(w, q, g)
  }

  ghost function Feedback(r: Poly, d: Sym): Sym
    requires |r| > 0
  {
    Add(d, r[|r| - 1])
  }

  ghost function ShiftedAt(r: Poly, fb: Sym, g: Poly, j: nat): Sym {
    Add(At(r, j - 1), Mul(At(g, j), fb))
  }

  /** The register after one message symbol has been fed in. */
  ghost function Shifted(r: Poly, fb: Sym, g: Poly): Poly {
    seq(|r|, (j: nat) => ShiftedAt(r, fb, g, j))
  }

  lemma ShiftCoefficients(r: Poly, p: Poly, d: Sym, g: Poly)
    requires |r| > 0 && |g| == |r| + 1 && g[|r|] == 1
    ensures var fb, n := Feedback(r, d), |r| + |p| + 1;
            Shifted(r, fb, g) + [d] + p == AddSeq([0] + (r + p), Scaled(fb, g, n))
  {
    hide Add, Mul, At, AddSeq, ShiftedAt;
    var fb, n, k := Feedback(r, d), |r| + |p| + 1, |r|;
    var a, b := [0] + (r + p), Scaled(fb, g, n);
    var w := Shifted(r, fb, g) + [d] + p;
    AtAddSeq(a, b, 0);
    forall i | 0 <= i < n ensures w[i] == AddSeq(a, b)[i] {
      AtAddSeq(a, b, i);
      AtInside(AddSeq(a, b), i);
      AtInside(a, i);
      AtInside(b, i);
      assert b[i] == Mul(fb, At(g, i));
      if i < k {
        ShiftCoefficient(r, p, fb, g, i);
      } else if i == k {
        AtInside(g, k);
        MulOne(fb);
        AddComm(d, r[k - 1]);
        AddComm(r[k - 1], Add(r[k - 1], d));
        AddComm(r[k - 1], d);
        AddCancel(d, r[k - 1]);
      } else {
        AtOutside(g, i);
        MulOne(fb);
        AddZero(a[i]);
        assert w[i] == p[i - k - 1];
      }
    }
  }

  lemma ShiftCoefficient(r: Poly, p: Poly, fb: Sym, g: Poly, i: nat)
    requires i < |r|
    ensures ShiftedAt(r, fb, g, i) == Add(([0] + (r + p))[i], Mul(fb, At(g, i)))
  {
    hide Add, Mul;
    MulComm(At(g, i), fb);
  }

  lemma ConvCons(a: Sym, q: Poly, g: Poly, j: int)
    ensures Conv([a] + q, g, j) == Add(Mul(a, At(g, j)), Conv(q, g, j - 1))
  {
    hide Add, Mul, At, Sum, Products;
    var f, h := Products([a] + q, g, j), Products(q, g, j - 1);
    forall i: nat | i < |q| ensures h(i) == f(1 + i) {
      ProductsAt(q, g, j - 1, i);
      ProductsAt([a] + q, g, j, 1 + i);
      AtInside(q, i);
      AtInside([a] + q, 1 + i);
      assert j - 1 - i == j - (1 + i);
    }
    SumSplit(1, |q|, f, h);
    SumOne(1, 0, f);
    ProductsAt([a] + q, g, j, 0);
    AtInside([a] + q, 0);
  }

  lemma AtCons(a: Sym, p: Poly, j: int)
    ensures At([a] + p, j) == if j == 0 then a else At(p, j - 1)
  {}

  lemma AtScaled(c: Sym, p: Poly, n: nat, j: int)
    requires |p| <= n
    ensures |Scaled(c, p, n)| == n && At(Scaled(c, p, n), j) == Mul(c, At(p, j))
  {
    hide Mul;
    MulOne(c);
  }

  /** Feeding in one symbol keeps the division exact and prepends the feedback to the quotient. */
  lemma DivisionStep(r: Poly, p: Poly, d: Sym, g: Poly, q: Poly)
    requires |r| > 0 && |g| == |r| + 1 && g[|r|] == 1 && Quotient(r + p, q, g)
    ensures var fb := Feedback(r, d);
            Quotient(Shifted(r, fb, g) + [d] + p, [fb] + q, g)
  {
    hide Add, Mul, At, Conv, AddSeq, Scaled, ShiftedAt, Feedback;
    var fb, n := Feedback(r, d), |r| + |p| + 1;
    var w, v := Shifted(r, fb, g) + [d] + p, r + p;
    ShiftCoefficients(r, p, d, g);
    forall j: int ensures At(w, j) == Conv([fb] + q, g, j) {
      AtScaled(fb, g, n, j);
      AtAddSeq([0] + v, Scaled(fb, g, n), j);
      AtCons(0, v, j);
      ConvCons(fb, q, g, j);
      assert At(v, j - 1) == Conv(q, g, j - 1);
      AddComm(At(v, j - 1), Mul(fb, At(g, j)));
      AtOutside(v, -1);
    }
  }

  lemma DivisionStart(r: Poly, g: Poly)
    requires |g| == |r| + 1 && forall i :: 0 <= i < |r| ==> r[i] == 0
    ensures Quotient(r + [], [], g)
  {
    hide Add, Mul;
  }

  /** The first n coefficients of the product of q and g. */
  ghost function ProductOf(q: Poly, g: Poly, n: nat): Poly {
    seq(n, (j: nat) => Conv(q, g, j))
  }

  lemma ProductOfQuotient(q: Poly, g: Poly, n: nat)
    requires |g| > 0 && n + 1 == |q| + |g|
    ensures Quotient(ProductOf(q, g, n), q, g)
  {
    hide Add, Mul, Conv;
    var w := ProductOf(q, g, n);
    forall j: int ensures At(w, j) == Conv(q, g, j) {
      if j < 0 || j >= n {
        ConvOutside(q, g, j);
      }
    }
  }

  lemma ConvOutside(q: Poly, g: Poly, j: int)
    requires j < 0 || j + 1 >= |q| + |g|
    ensures Conv(q, g, j) == 0
  {
    hide Mul, Products, Sum;
    var f := Products(q, g, j);
    forall i: nat | i < |q| ensures f(i) == 0 {
      ProductsAt(q, g, j, i);
      AtOutside(g, j - i);
      MulOne(At(q, i));
    }
    SumNone(|q|, f);
  }

  lemma EvalNoQuotient(w: Poly, q: Poly, g: Poly, x: Sym)
    requires |q| == 0 && Quotient(w, q, g)
    ensures Eval(w, x) == Mul(Eval(q, x), Eval(g, x))
  {
    hide Add, Mul, Eval, Pow, Products;
    forall i | 0 <= i < |w| ensures w[i] == 0 {
      assert At(w, i) == Conv(q, g, i);
    }
    EvalZero(w, x);
    EvalZero(q, x);
    MulOne(Eval(g, x));
  }

  lemma ProductCons(w: Poly, fb: Sym, rest: Poly, v: Poly, g: Poly)
    requires |g| > 0 && Quotient(w, [fb] + rest, g) && Quotient(v, rest, g)
    ensures |Scaled(fb, g, |w|)| == |w| == |[0] + v|
    ensures w == AddSeq([0] + v, Scaled(fb, g, |w|))
  {
    hide Add, Mul, Conv, AddSeq, Scaled, At;
    AtScaled(fb, g, |w|, 0);
    var s := AddSeq([0] + v, Scaled(fb, g, |w|));
    AtAddSeq([0] + v, Scaled(fb, g, |w|), 0);
    forall i | 0 <= i < |w| ensures w[i] == s[i] {
      AtScaled(fb, g, |w|, i);
      AtAddSeq([0] + v, Scaled(fb, g, |w|), i);
      AtCons(0, v, i);
      AtOutside(v, -1);
      ConvCons(fb, rest, g, i);
      assert At(w, i) == Conv([fb] + rest, g, i) && At(v, i - 1) == Conv(rest, g, i - 1);
      AddComm(At(v, i - 1), Mul(fb, At(g, i)));
      AtInside(w, i);
      AtInside(s, i);
    }
  }

  /** The value of a product is the product of the values. */
  lemma {:induction false} EvalProduct(w: Poly, q: Poly, g: Poly, x: Sym)
    requires |g| > 0 && Quotient(w, q, g)
    ensures Eval(w, x) == Mul(Eval(q, x), Eval(g, x))
    decreases |q|
  {
    hide Add, Mul, Eval, Conv, At, Scaled, AddSeq, ProductOf;
    if |q| == 0 {
      EvalNoQuotient(w, q, g, x);
    } else {
      var fb, rest, n := q[0], q[1..], |w|;
      var v := ProductOf(rest, g, n - 1);
      assert q == [fb] + rest;
      ProductOfQuotient(rest, g, n - 1);
      EvalProduct(v, rest, g, x);
      EvalScaled(fb, g, n, x);
      ProductCons(w, fb, rest, v, g);
      EvalAddSeq([0] + v, Scaled(fb, g, n), x);
      EvalCons(0, v, x);
      EvalCons(fb, rest, x);
      MulAssoc(x, Eval(rest, x), Eval(g, x));
      DistributeRight(fb, Mul(x, Eval(rest, x)), Eval(g, x));
      var c := Mul(x, Eval(v, x));
      AddZero(c);
      AddComm(c, Mul(fb, Eval(g, x)));
    }
  }

  /** A multiple of the generator vanishes at all its roots. */
  lemma MultipleIsCodeword(w: Poly, q: Poly, b0: nat, n: nat)
    requires IsWord(w) && Quotient(w, q, GenSpec(b0, n))
    ensures IsCodeword(w, b0, n)
  {
    hide Add, Mul, Eval, Exp, GenSpec, Quotient;
    forall j | 1 <= j <= n ensures Syndrome(w, b0, j) == 0 {
      var x := Exp(b0 + j - 1);
      EvalProduct(w, q, GenSpec(b0, n), x);
      GenRoots(b0, n, j - 1);
      MulOne(Eval(q, x));
    }
  }

  // ----- encode_rs

  lemma ShiftedSymbol(r: Poly, fb: Sym, g: Poly, j: nat)
    requires j < |r| && |g| == |r| + 1
    ensures |Shifted(r, fb, g)| == |r|
    ensures j > 0 ==> Shifted(r, fb, g)[j] == Add(r[j - 1], Mul(g[j], fb))
    ensures j == 0 ==> Shifted(r, fb, g)[j] == Mul(g[j], fb)
    ensures fb == 0 ==> Shifted(r, fb, g)[j] == if j == 0 then 0 else r[j - 1]
  {
    hide Add, Mul;
    AddZero(Mul(g[j], fb));
    MulOne(g[j]);
    if j > 0 {
      AddZero(r[j - 1]);
    }
  }

  method EncodeRs(alphaTo: array<int>, indexOf: array<int>, gg: array<int>, data: array<int>, bb: array<int>,
                  ghost b0: nat)
    requires Ready(alphaTo, indexOf) && GenReady(gg, b0, bb.Length)
    requires bb != alphaTo && bb != indexOf && bb != gg && bb != data
    requires 1 <= bb.Length && data.Length + bb.Length == NN && Symbols(data)
    modifies bb
    ensures Symbols(bb)
    ensures IsCodeword(Contents(bb) + Contents(data), b0, bb.Length)
    ensures DivisibleBy(Contents(bb) + Contents(data), GenSpec(b0, bb.Length), data.Length)
  {
    hide Xor, Galois, Add, Mul, Exp, Idx, GenSpec, Quotient, Shifted, IsCodeword;
    FieldOperations();
    var n := bb.Length;
    ghost var g := GenSpec(b0, n);
    GenMonic(b0, n);
    for i := 0 to n
      invariant forall j :: 0 <= j < i ==> bb[j] == 0
    {
      bb[i] := 0;
    }
    ghost var q: Poly := [];
    ghost var r: Poly := bb[..];
    ghost var p: Poly := [];
    DivisionStart(r, g);
    for i := data.Length downto 0
      invariant r == bb[..] && p == data[i..] && |q| == data.Length - i
      invariant Quotient(r + p, q, g)
    {
      assert r[n - 1] == bb[n - 1];
      var feedback := Xor(data[i], bb[n - 1]);
      ghost var r' := Shifted(r, feedback, g);
      ShiftedSymbol(r, feedback, g, 0);
      if feedback != 0 {
        for j := n downto 1
          invariant forall k :: 0 <= k < j ==> bb[k] == r[k]
          invariant forall k :: j <= k < n ==> bb[k] == r'[k]
        {
          ShiftedSymbol(r, feedback, g, j);
          GenLookup(alphaTo, indexOf, gg, b0, n, j);
          bb[j] := Xor(bb[j - 1], Galois(alphaTo[gg[j]], feedback));
        }
        GenLookup(alphaTo, indexOf, gg, b0, n, 0);
        bb[0] := Galois(alphaTo[gg[0]], feedback);
      } else {
        for j := n downto 1
          invariant forall k :: 0 <= k < j ==> bb[k] == r[k]
          invariant forall k :: j <= k < n ==> bb[k] == r'[k]
        {
          ShiftedSymbol(r, feedback, g, j);
          bb[j] := bb[j - 1];
        }
        bb[0] := 0;
      }
      assert bb[..] == r';
      DivisionStep(r, p, data[i], g, q);
      assert r' + [data[i]] + p == r' + ([data[i]] + p);
      q, r, p := [feedback] + q, r', [data[i]] + p;
      assert p == data[i..];
    }
    assert data[0..] == data[..];
    assert Contents(bb) + Contents(data) == r + p;
    MultipleIsCodeword(r + p, q, b0, n);
  }

  /** Every coefficient of the generator has an index, so the encoder's table lookups are defined. */
  lemma GenLookup(alphaTo: array<int>, indexOf: array<int>, gg: array<int>, b0: nat, n: nat, j: nat)
    requires Ready(alphaTo, indexOf) && GenReady(gg, b0, n) && j <= n < NN
    ensures 0 <= gg[j] < NN && alphaTo[gg[j]] == GenSpec(b0, n)[j]
  {
    hide Exp, GenSpec, Idx;
    GenNonzero(b0, n, j);
    IdxRange(GenSpec(b0, n)[j]);
  }
}
