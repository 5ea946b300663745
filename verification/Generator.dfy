/** The generator polynomial, the product of X + @^(b0+m) for m = 0 .. n-1. */
module Generator {
  import opened BitMultiplier
  import opened GF256
  import opened Sums
  import opened Polynomials
  import opened Words
  import opened Tables

  ghost function GenSpec(b0: nat, n: nat): (g: Poly)
    ensures |g| == n + 1
  {
    if n == 0 then [1] else Times(GenSpec(b0, n - 1), Exp(b0 + n - 1), 1)
  }

  lemma GenCoefficient(b0: nat, n: nat, j: nat)
    requires j <= n + 1
    ensures At(GenSpec(b0, n + 1), j)
         == Add(At(GenSpec(b0, n), j - 1), Mul(At(GenSpec(b0, n), j), Exp(b0 + n)))
  {
    hide Add, Mul, Exp, Times, At;
    var g, r := GenSpec(b0, n), Exp(b0 + n);
    AtTimes(g, r, 1, j);
    MulOne(At(g, j - 1));
    MulComm(r, At(g, j));
    AddComm(Mul(r, At(g, j)), At(g, j - 1));
  }

  lemma {:induction false} GenMonic(b0: nat, n: nat)
    ensures GenSpec(b0, n)[n] == 1
  {
    hide Add, Mul, Exp, Times, At;
    if n > 0 {
      GenMonic(b0, n - 1);
      GenCoefficient(b0, n - 1, n);
      var g := GenSpec(b0, n - 1);
      AtInside(g, n - 1);
      AtOutside(g, n);
      AtInside(GenSpec(b0, n), n);
      MulOne(Exp(b0 + n - 1));
      AddZero(1);
    }
  }

  /** The constant term is a product of powers, hence never zero. */
  lemma {:induction false} GenConstant(b0: nat, n: nat)
    ensures GenSpec(b0, n)[0] != 0
    ensures GenSpec(b0, n + 1)[0] == Mul(GenSpec(b0, n)[0], Exp(b0 + n))
  {
    hide Add, Mul, Exp, Times, At;
    GenCoefficient(b0, n, 0);
    var g := GenSpec(b0, n);
    AtInside(g, 0);
    AtOutside(g, -1);
    AtInside(GenSpec(b0, n + 1), 0);
    AddZero(Mul(g[0], Exp(b0 + n)));
    if n > 0 {
      GenConstant(b0, n - 1);
      ExpNonzero(b0 + n - 1);
      NoZeroDivisors(GenSpec(b0, n - 1)[0], Exp(b0 + n - 1));
    }
  }

  /** The generator vanishes at each of its n roots. */
  lemma {:induction false} GenRoots(b0: nat, n: nat, m: nat)
    requires m < n
    ensures Eval(GenSpec(b0, n), Exp(b0 + m)) == 0
  {
    hide Add, Mul, Exp, Times, Eval;
    var g, r, x := GenSpec(b0, n - 1), Exp(b0 + n - 1), Exp(b0 + m);
    EvalTimes(g, r, 1, x);
    MulOne(x);
    MulOne(Eval(g, x));
    if m == n - 1 {
      AddZero(r);
    } else {
      GenRoots(b0, n - 1, m);
      MulOne(Add(r, x));
    }
  }

  /** A polynomial followed by zeros up to n coefficients. */
  ghost function Padded(p: Poly, n: nat): Poly
    requires |p| <= n
  {
    seq(n, (i: nat) => At(p, i))
  }

  lemma EvalPadded(p: Poly, n: nat, x: Sym)
    requires |p| <= n
    ensures |Padded(p, n)| == n && Eval(Padded(p, n), x) == Eval(p, x)
  {
    hide Add, Mul, Pow;
    var f, g := Monomials(Padded(p, n), x), Monomials(p, x);
    SumSame(n, f, g);
    forall i: nat | |p| <= i < n ensures g(i) == 0 {
      MonomialsEnd(p, x, i);
    }
    SumTrim(|p|, n, g);
  }

  lemma {:induction false} FewCoefficients(a: Poly, z: Poly, n: nat, j: nat)
    requires n <= |a| == |z| && forall i :: 0 <= i < n ==> z[i] == 0
    ensures |Diff(a, z, n)| <= n
    ensures j < n && a[j] == 0 ==> |Diff(a, z, n)| <= n - 1
  {
    hide Places;
    if n > 0 {
      FewCoefficients(a, z, n - 1, j);
    }
  }

  lemma {:induction false} DiffTail(a: Poly, z: Poly, m: nat, n: nat)
    requires m <= n <= |a| == |z| && forall i :: m <= i < n ==> a[i] == z[i]
    ensures Diff(a, z, n) == Diff(a, z, m)
  {
    if m < n {
      DiffTail(a, z, m, n - 1);
    }
  }

  lemma PaddedCodeword(b0: nat, n: nat)
    requires n < NN
    ensures IsCodeword(Padded(GenSpec(b0, n), NN), b0, n)
  {
    hide Exp, Eval, Padded;
    var w := Padded(GenSpec(b0, n), NN);
    EvalPadded(GenSpec(b0, n), NN, 0);
    forall j | 1 <= j <= n ensures Syndrome(w, b0, j) == 0 {
      EvalPadded(GenSpec(b0, n), NN, Exp(b0 + j - 1));
      GenRoots(b0, n, j - 1);
    }
  }

  lemma ZeroCodeword(b0: nat, n: nat)
    ensures IsCodeword(seq(NN, i => 0), b0, n)
  {
    hide Exp, Eval;
    var z: Poly := seq(NN, i => 0);
    forall j | 1 <= j <= n ensures Syndrome(z, b0, j) == 0 {
      EvalZero(z, Exp(b0 + j - 1));
    }
  }

  lemma EvalZero(z: Poly, x: Sym)
    requires forall i :: 0 <= i < |z| ==> z[i] == 0
    ensures Eval(z, x) == 0
  {
    hide Add, Mul, Pow;
    forall i: nat | i < |z| ensures Monomials(z, x)(i) == 0 {
      MulOne(Pow(x, i));
    }
    SumNone(|z|, Monomials(z, x));
  }

  /** Every coefficient of the generator is nonzero, because the generator is itself a codeword. */
  lemma GenNonzero(b0: nat, n: nat, j: nat)
    requires j <= n < NN
    ensures GenSpec(b0, n)[j] != 0
  {
    hide Exp, Eval, GenSpec, Padded, Places, Diff, IsCodeword;
    var g := GenSpec(b0, n);
    if g[j] == 0 {
      var w, z := Padded(g, NN), seq(NN, i => 0);
      PaddedCodeword(b0, n);
      ZeroCodeword(b0, n);
      GenMonic(b0, n);
      PaddedShape(g, NN);
      assert w[n] != z[n];
      FewCoefficients(w, z, n + 1, j);
      DiffTail(w, z, n + 1, NN);
      MinimumDistance(w, z, b0, n);
    }
  }

  lemma PaddedShape(p: Poly, n: nat)
    requires |p| <= n
    ensures |Padded(p, n)| == n
    ensures forall i :: 0 <= i < |p| ==> Padded(p, n)[i] == p[i]
    ensures forall i :: |p| <= i < n ==> Padded(p, n)[i] == 0
  {}

  // ----- gen_poly

  lemma GenStart(b0: nat)
    ensures GenSpec(b0, 1) == [Exp(b0), 1]
  {
    hide Add, Mul, Exp;
    var r := Exp(b0);
    MulOne(r);
    MulOne(1);
    MulOne(0);
    AddZero(r);
    AddZero(1);
    assert GenSpec(b0, 0) == [1];
  }

  /** One coefficient of the product with X + @^(b0+n), as the tables compute it. */
  lemma GenUpdate(b0: nat, n: nat, j: nat)
    requires 1 <= j <= n
    ensures var c := GenSpec(b0, n)[j];
            GenSpec(b0, n + 1)[j]
            == if c != 0 then Add(GenSpec(b0, n)[j - 1], Exp((Idx(c) + b0 + n) % NN)) else GenSpec(b0, n)[j - 1]
  {
    hide Add, Mul, Exp, GenSpec, Idx;
    var g := GenSpec(b0, n);
    GenCoefficient(b0, n, j);
    MulOne(Exp(b0 + n));
    AddZero(g[j - 1]);
    if g[j] != 0 {
      IndexSum(g[j], b0 + n);
      assert Idx(g[j]) + (b0 + n) == Idx(g[j]) + b0 + n;
    }
  }

  lemma GenUpdateConstant(b0: nat, n: nat)
    ensures var c := GenSpec(b0, n)[0];
            c != 0 && GenSpec(b0, n + 1)[0] == Exp((Idx(c) + b0 + n) % NN)
  {
    hide Add, Mul, Exp, GenSpec, Idx;
    GenConstant(b0, n);
    IndexSum(GenSpec(b0, n)[0], b0 + n);
    assert Idx(GenSpec(b0, n)[0]) + (b0 + n) == Idx(GenSpec(b0, n)[0]) + b0 + n;
  }

  /** gg holds the generator polynomial in index form. */
  ghost predicate GenReady(gg: array<int>, b0: nat, n: nat)
    reads gg
  {
    gg.Length == n + 1 && forall j :: 0 <= j <= n ==> gg[j] == Idx(GenSpec(b0, n)[j])
  }

  method GenPoly(alphaTo: array<int>, indexOf: array<int>, gg: array<int>, b0: nat, n: nat)
    requires Ready(alphaTo, indexOf) && gg != alphaTo && gg != indexOf
    requires b0 < NN && 1 <= n < NN && gg.Length == n + 1
    modifies gg
    ensures GenReady(gg, b0, n)
  {
    hide Xor, Galois, Add, Mul, Exp, GenSpec, Idx;
    FieldOperations();
    LengthValue();
    GenStart(b0);
    gg[0] := alphaTo[b0];
    gg[1] := 1;
    for i := 2 to n + 1
      invariant forall k :: 0 <= k < i ==> gg[k] == GenSpec(b0, i - 1)[k]
    {
      ghost var p, p' := GenSpec(b0, i - 1), GenSpec(b0, i);
      gg[i] := 1;
      GenMonic(b0, i);
      for j := i downto 1
        invariant forall k :: 0 <= k < j ==> gg[k] == p[k]
        invariant forall k :: j <= k <= i ==> gg[k] == p'[k]
      {
        GenUpdate(b0, i - 1, j);
        if gg[j] != 0 {
          IdxRange(gg[j]);
          gg[j] := Xor(gg[j - 1], alphaTo[(indexOf[gg[j]] + b0 + i - 1) % NN]);
        } else {
          gg[j] := gg[j - 1];
        }
      }
      GenUpdateConstant(b0, i - 1);
      IdxRange(gg[0]);
      gg[0] := alphaTo[(indexOf[gg[0]] + b0 + i - 1) % NN];
    }
    ghost var g := GenSpec(b0, n);
    for i := 0 to n + 1
      invariant forall k :: 0 <= k < i ==> gg[k] == Idx(g[k])
      invariant forall k :: i <= k <= n ==> gg[k] == g[k]
    {
      gg[i] := indexOf[gg[i]];
    }
  }
}
