/** Polynomials over the field as sequences of coefficients, constant term first. */
module Polynomials {
  import opened BitMultiplier
  import opened GF256
  import opened Sums

  type Poly = seq<Sym>

  /** The coefficient at i, which is zero outside the sequence. */
  function At(p: Poly, i: int): Sym {
    if 0 <= i < |p| then p[i] else 0
  }

  ghost predicate Distinct(xs: seq<Sym>) {
    forall i, j :: 0 <= i < j < |xs| ==> xs[i] != xs[j]
  }

  ghost function Monomials(p: Poly, x: Sym): nat -> Sym {
    (i: nat) => Mul(At(p, i), Pow(x, i))
  }

  ghost function Eval(p: Poly, x: Sym): Sym {
    Sum(|p|, Monomials(p, x))
  }

  ghost function TimesAt(p: Poly, a: Sym, b: Sym, i: int): Sym {
    Add(Mul(a, At(p, i)), Mul(b, At(p, i - 1)))
  }

  /** The product of p and a + b*X. */
  ghost function Times(p: Poly, a: Sym, b: Sym): Poly {
    seq(|p| + 1, i => TimesAt(p, a, b, i))
  }

  /** The terms of X*p. */
  ghost function Raised(p: Poly, x: Sym): nat -> Sym {
    (i: nat) => Mul(At(p, i - 1), Pow(x, i))
  }

  lemma RaisedTerm(p: Poly, x: Sym, i: nat)
    ensures Raised(p, x)(0) == 0
    ensures Raised(p, x)(1 + i) == Mul(x, Monomials(p, x)(i))
  {
    hide Mul;
    MulOne(Pow(x, 0));
    MulSwap(At(p, i), x, Pow(x, i));
  }

  lemma MonomialsAt(p: Poly, x: Sym, i: nat)
    ensures Monomials(p, x)(i) == Mul(At(p, i), Pow(x, i))
  {
    hide Mul, At, Pow;
  }

  lemma MonomialsEnd(p: Poly, x: Sym, i: nat)
    requires i >= |p|
    ensures Monomials(p, x)(i) == 0
  {
    hide Mul;
    MulOne(Pow(x, i));
  }

  lemma SumRaised(p: Poly, x: Sym)
    ensures Sum(|p| + 1, Raised(p, x)) == Mul(x, Eval(p, x))
  {
    hide Add, Mul, Monomials, Raised;
    var f, g := Monomials(p, x), Raised(p, x);
    var h := (i: nat) => g(1 + i);
    forall i: nat | i < |p| ensures h(i) == Mul(x, f(i)) {
      RaisedTerm(p, x, i);
    }
    SumTimes(|p|, x, f, h);
    RaisedTerm(p, x, 0);
    SumNone(1, g);
    AddZero(Sum(|p|, h));
    SumSplit(1, |p|, g, h);
  }

  lemma AtTimes(p: Poly, a: Sym, b: Sym, i: nat)
    requires i <= |p|
    ensures |Times(p, a, b)| == |p| + 1
    ensures At(Times(p, a, b), i) == Add(Mul(a, At(p, i)), Mul(b, At(p, i - 1)))
  {
    hide Add, Mul;
  }

  lemma TimesTerm(p: Poly, a: Sym, b: Sym, x: Sym, i: nat)
    requires i <= |p|
    ensures Monomials(Times(p, a, b), x)(i) == Add(Mul(a, Monomials(p, x)(i)), Mul(b, Raised(p, x)(i)))
  {
    hide Add, Mul, Pow, At, Times;
    AtTimes(p, a, b, i);
    var c, d, y := At(p, i), At(p, i - 1), Pow(x, i);
    DistributeRight(Mul(a, c), Mul(b, d), y);
    MulAssoc(a, c, y);
    MulAssoc(b, d, y);
  }

  lemma EvalTimes(p: Poly, a: Sym, b: Sym, x: Sym)
    ensures Eval(Times(p, a, b), x) == Mul(Add(a, Mul(b, x)), Eval(p, x))
  {
    hide Add, Mul, Pow, Raised, Sum, Monomials, At;
    var n := |p|;
    var f, g, h := Monomials(p, x), Raised(p, x), Monomials(Times(p, a, b), x);
    var fa, gb := (i: nat) => Mul(a, f(i)), (i: nat) => Mul(b, g(i));
    forall i: nat | i < n + 1 ensures h(i) == Add(fa(i), gb(i)) {
      TimesTerm(p, a, b, x, i);
    }
    SumPlus(n + 1, fa, gb, h);
    SumTimes(n + 1, a, f, fa);
    SumTimes(n + 1, b, g, gb);
    MonomialsEnd(p, x, n);
    SumTrim(n, n + 1, f);
    SumRaised(p, x);
    MulAssoc(b, x, Eval(p, x));
    DistributeRight(a, Mul(b, x), Eval(p, x));
  }

  // ----- reversed evaluation and division by 1 + y*X

  /** The value at y of the first j coefficients, read with the constant term as the leading one. */
  ghost function Horner(p: Poly, y: Sym, j: nat): Sym {
    if j == 0 then 0 else Add(Mul(y, Horner(p, y, j - 1)), At(p, j - 1))
  }

  /** y is a locator of p when 1/y is a root of p. */
  ghost predicate Locates(p: Poly, y: Sym) {
    Horner(p, y, |p|) == 0
  }

  lemma HornerStep(p: Poly, y: Sym, j: nat)
    ensures Horner(p, y, 0) == 0
    ensures Horner(p, y, j + 1) == Add(Mul(y, Horner(p, y, j)), At(p, j))
  {
    hide Add, Mul, At;
  }

  lemma {:induction false} HornerSum(p: Poly, y: Sym, z: Sym, j: nat)
    requires Mul(y, z) == 1
    ensures Horner(p, y, j + 1) == Mul(Pow(y, j), Sum(j + 1, Monomials(p, z)))
  {
    hide Add, Mul, At, Horner;
    HornerStep(p, y, j);
    var s := Sum(j, Monomials(p, z));
    PowInverse(y, z, j);
    MulComm(At(p, j), Pow(z, j));
    MulAssoc(Pow(y, j), Pow(z, j), At(p, j));
    MulOne(At(p, j));
    Distribute(Pow(y, j), s, Mul(At(p, j), Pow(z, j)));
    if j == 0 {
      HornerStep(p, y, 0);
      MulOne(y);
      MulOne(Pow(y, j));
    } else {
      HornerSum(p, y, z, j - 1);
      MulAssoc(y, Pow(y, j - 1), s);
    }
  }

  lemma {:induction false} PowInverse(y: Sym, z: Sym, j: nat)
    requires Mul(y, z) == 1
    ensures Mul(Pow(y, j), Pow(z, j)) == 1
  {
    hide Mul;
    MulOne(1);
    if j > 0 {
      PowInverse(y, z, j - 1);
      var a, b := Pow(y, j - 1), Pow(z, j - 1);
      MulAssoc(y, a, Mul(z, b));
      MulSwap(a, z, b);
      MulOne(z);
    }
  }

  /** The locators of p are the inverses of its roots. */
  lemma LocatesRoot(p: Poly, y: Sym, z: Sym)
    requires |p| > 0 && Mul(y, z) == 1
    ensures Locates(p, y) <==> Eval(p, z) == 0
  {
    hide Add, Mul, At, Horner, Monomials, Pow, Sum;
    HornerSum(p, y, z, |p| - 1);
    MulOne(z);
    PowNonzero(y, |p| - 1);
    NoZeroDivisors(Pow(y, |p| - 1), Eval(p, z));
  }

  /** The quotient of p by 1 + y*X. */
  ghost function Deflate(p: Poly, y: Sym): Poly
    requires |p| > 0
  {
    seq(|p| - 1, (i: nat) => Horner(p, y, i + 1))
  }

  lemma DeflateTimes(p: Poly, y: Sym)
    requires |p| > 0 && Locates(p, y)
    ensures Times(Deflate(p, y), 1, y) == p
  {
    hide Add, Mul, Horner, Times;
    var q := Deflate(p, y);
    HornerStep(p, y, 0);
    AtTimes(q, 1, y, 0);
    forall i | 0 <= i < |p| ensures Times(q, 1, y)[i] == p[i] {
      AtTimes(q, 1, y, i);
      HornerStep(p, y, i);
      MulOne(y);
      MulOne(At(q, i));
      AddCancel(At(p, i), Mul(y, Horner(p, y, i)));
      AddComm(At(p, i), Mul(y, Horner(p, y, i)));
    }
  }

  /** Reversed evaluation of a product with 1 + y*X. */
  lemma {:induction false} HornerTimes(q: Poly, y: Sym, z: Sym, j: nat)
    requires j <= |q|
    ensures Horner(Times(q, 1, y), z, j + 1) == Add(Horner(q, z, j + 1), Mul(y, Horner(q, z, j)))
  {
    hide Add, Mul, At, Horner, Times;
    var p := Times(q, 1, y);
    AtTimes(q, 1, y, j);
    HornerStep(p, z, j);
    HornerStep(q, z, j);
    MulOne(At(q, j));
    MulOne(y);
    MulOne(z);
    if j == 0 {
      AddZero(At(q, 0));
      AtOutside(q, -1);
    } else {
      HornerTimes(q, y, z, j - 1);
      HornerStep(q, z, j - 1);
      var c, d := Horner(q, z, j), Horner(q, z, j - 1);
      Distribute(z, c, Mul(y, d));
      MulSwap(z, y, d);
      Distribute(y, Mul(z, d), At(q, j - 1));
      AddSwap(Mul(z, c), Mul(y, Mul(z, d)), At(q, j), Mul(y, At(q, j - 1)));
    }
  }

  lemma AtOutside(p: Poly, i: int)
    requires i < 0 || i >= |p|
    ensures At(p, i) == 0
  {}

  lemma LocatesTimes(q: Poly, y: Sym, z: Sym)
    ensures Locates(Times(q, 1, y), z) <==> z == y || Locates(q, z)
  {
    hide Add, Mul, At, Horner, Times;
    var n := |q|;
    AtTimes(q, 1, y, 0);
    HornerTimes(q, y, z, n);
    HornerStep(q, z, n);
    AtOutside(q, n);
    AddZero(Mul(z, Horner(q, z, n)));
    DistributeRight(z, y, Horner(q, z, n));
    NoZeroDivisors(Add(z, y), Horner(q, z, n));
    AddCancel(z, y);
  }

  /** A polynomial with as many distinct locators as coefficients is zero. */
  lemma {:induction false} TooManyLocators(p: Poly, ys: seq<Sym>)
    requires |p| == |ys| && Distinct(ys) && forall i :: 0 <= i < |ys| ==> Locates(p, ys[i])
    ensures forall i :: 0 <= i < |p| ==> p[i] == 0
    decreases |ys|
  {
    hide Add, Mul, Locates, Times, Deflate;
    if |p| > 0 {
      var n := |p| - 1;
      var y, rest := ys[n], ys[..n];
      DeflateTimes(p, y);
      DeflateLength(p, y);
      var q := Deflate(p, y);
      forall i | 0 <= i < n ensures Locates(q, rest[i]) {
        LocatesTimes(q, y, rest[i]);
      }
      TooManyLocators(q, rest);
      forall i | 0 <= i < |p| ensures p[i] == 0 {
        AtTimes(q, 1, y, i);
        MulOne(1);
        MulOne(y);
        AddZero(0);
      }
    }
  }

  lemma DeflateLength(p: Poly, y: Sym)
    requires |p| > 0
    ensures |Deflate(p, y)| == |p| - 1
    ensures |p| > 1 ==> Deflate(p, y)[0] == p[0]
  {
    hide Add, Mul;
    HornerStep(p, y, 0);
    MulOne(y);
    AddZero(p[0]);
  }

  /** The product of 1 + y*x over the locators y. */
  ghost function LocatorProduct(ys: seq<Sym>, x: Sym): Sym {
    if |ys| == 0 then 1 else Mul(Add(1, Mul(ys[|ys| - 1], x)), LocatorProduct(ys[..|ys| - 1], x))
  }

  /** A polynomial with constant term 1 is the product over its locators, if there are enough of them. */
  lemma {:induction false} Factorisation(p: Poly, ys: seq<Sym>, x: Sym)
    requires |p| == |ys| + 1 && p[0] == 1
    requires Distinct(ys) && forall i :: 0 <= i < |ys| ==> Locates(p, ys[i])
    ensures Eval(p, x) == LocatorProduct(ys, x)
    decreases |ys|
  {
    hide Add, Mul, Locates, Times, Deflate, Eval;
    if |ys| == 0 {
      EvalConstant(p, x);
    } else {
      var n := |ys| - 1;
      var y, rest := ys[n], ys[..n];
      DeflateTimes(p, y);
      DeflateLength(p, y);
      var q := Deflate(p, y);
      forall i | 0 <= i < n ensures Locates(q, rest[i]) {
        LocatesTimes(q, y, rest[i]);
      }
      Factorisation(q, rest, x);
      EvalTimes(q, 1, y, x);
    }
  }

  lemma EvalConstant(p: Poly, x: Sym)
    requires |p| == 1
    ensures Eval(p, x) == p[0]
  {
    hide Add, Mul;
    MulOne(p[0]);
    AddZero(p[0]);
    assert Sum(0, Monomials(p, x)) == 0;
  }

  /** The polynomial with constant term 1 whose locators are ys. */
  ghost function Locator(ys: seq<Sym>): (p: Poly)
    ensures |p| == |ys| + 1
  {
    if |ys| == 0 then [1] else Times(Locator(ys[..|ys| - 1]), 1, ys[|ys| - 1])
  }

  lemma {:induction false} LocatorLocates(ys: seq<Sym>)
    ensures Locator(ys)[0] == 1
    ensures forall i :: 0 <= i < |ys| ==> Locates(Locator(ys), ys[i])
  {
    hide Add, Mul, Locates, Times, At;
    if |ys| > 0 {
      var n := |ys| - 1;
      var q, y := Locator(ys[..n]), ys[n];
      LocatorLocates(ys[..n]);
      AtTimes(q, 1, y, 0);
      AtInside(q, 0);
      AtInside(Locator(ys), 0);
      AtOutside(q, -1);
      MulOne(1);
      MulOne(y);
      AddZero(1);
      forall i | 0 <= i < |ys| ensures Locates(Locator(ys), ys[i]) {
        LocatesTimes(q, y, ys[i]);
      }
    }
  }

  lemma AtInside(p: Poly, i: nat)
    requires i < |p|
    ensures At(p, i) == p[i]
  {}
}
