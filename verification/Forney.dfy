/** From a recurrence to error locators and error weights. */
module Forney {
  import opened BitMultiplier
  import opened GF256
  import opened Sums
  import opened Polynomials
  import opened PowerSums
  import opened Berlekamp

  // ----- recurrences and locators

  lemma {:induction false} HornerBeyond(p: Poly, y: Sym, k: nat)
    ensures Horner(p, y, |p| + k) == Mul(Pow(y, k), Horner(p, y, |p|))
  {
    hide Add, Mul, At, Horner;
    MulOne(Horner(p, y, |p|));
    if k > 0 {
      HornerBeyond(p, y, k - 1);
      HornerStep(p, y, |p| + k - 1);
      AtOutside(p, |p| + k - 1);
      AddZero(Mul(y, Horner(p, y, |p| + k - 1)));
      MulAssoc(y, Pow(y, k - 1), Horner(p, y, |p|));
    }
  }

  /** The polynomial of the true locators is a recurrence for the whole syndrome sequence. */
  lemma LocatorGenerates(ws: seq<Sym>, ys: seq<Sym>, n: nat)
    ensures Generates(Locator(ys), Syndromes(ws, ys, n), n)
  {
    hide Add, Mul, At, Locator, Syndromes, Conv;
    var p := Locator(ys);
    LocatorLocates(ys);
    forall j | |p| <= j <= n ensures Conv(p, Syndromes(ws, ys, n), j) == 0 {
      LocatedRecurrence(p, ws, ys, n, j);
    }
  }

  /** Past its length, a recurrence that locates every error yields zero. */
  lemma LocatedRecurrence(p: Poly, ws: seq<Sym>, ys: seq<Sym>, n: nat, j: nat)
    requires |p| <= j <= n && forall i :: 0 <= i < |ys| ==> Locates(p, ys[i])
    ensures Conv(p, Syndromes(ws, ys, n), j) == 0
  {
    hide Add, Mul, Syndromes, Conv, Horner, Sum;
    ConvSyndromes(p, ws, ys, n, j);
    var f := Recurrences(p, ws, ys, j);
    forall r: nat | r < |ys| ensures f(r) == 0 {
      HornerBeyond(p, ys[r], j - |p|);
      MulOne(Pow(ys[r], j - |p|));
      MulOne(At(ws, r));
    }
    SumNone(|ys|, f);
  }

  ghost function LocatedWeights(p: Poly, ws: seq<Sym>, ys: seq<Sym>): seq<Sym> {
    seq(|ys|, (r: nat) => Mul(At(ws, r), Horner(p, At(ys, r), |p|)))
  }

  lemma LocatedWeightsSum(p: Poly, ws: seq<Sym>, ys: seq<Sym>, n: nat, m: nat)
    requires |p| + m <= n
    ensures PowerSum(LocatedWeights(p, ws, ys), ys, m) == Conv(p, Syndromes(ws, ys, n), |p| + m)
  {
    hide Add, Mul, Syndromes, Conv, Sum;
    ConvSyndromes(p, ws, ys, n, |p| + m);
    var f, g := Weighted(LocatedWeights(p, ws, ys), ys, m), Recurrences(p, ws, ys, |p| + m);
    forall r: nat | r < |ys| ensures f(r) == g(r) {
      LocatedTerm(p, ws, ys, m, r);
    }
    SumSame(|ys|, f, g);
  }

  lemma LocatedTerm(p: Poly, ws: seq<Sym>, ys: seq<Sym>, m: nat, r: nat)
    requires r < |ys|
    ensures Weighted(LocatedWeights(p, ws, ys), ys, m)(r) == Recurrences(p, ws, ys, |p| + m)(r)
  {
    hide Add, Mul, Horner, Pow;
    var w, y := At(ws, r), At(ys, r);
    HornerBeyond(p, y, m);
    MulAssoc(w, Horner(p, y, |p|), Pow(y, m));
    MulComm(Horner(p, y, |p|), Pow(y, m));
  }

  /** With few enough errors, a short recurrence locates every one of them. */
  lemma ErrorsLocated(p: Poly, ws: seq<Sym>, ys: seq<Sym>, n: nat)
    requires |ws| == |ys| && Distinct(ys) && forall r :: 0 <= r < |ws| ==> ws[r] != 0
    requires Generates(p, Syndromes(ws, ys, n), n) && |p| - 1 + |ys| <= n
    ensures forall r :: 0 <= r < |ys| ==> Locates(p, ys[r])
  {
    hide Add, Mul, Syndromes, Conv, PowerSum, LocatedWeights, Horner;
    var vs := LocatedWeights(p, ws, ys);
    forall m: nat | m < |ys| ensures PowerSum(vs, ys, m) == 0 {
      LocatedWeightsSum(p, ws, ys, n, m);
    }
    LocatedLength(p, ws, ys);
    VanishingPowerSums(vs, ys);
    forall r | 0 <= r < |ys| ensures Locates(p, ys[r]) {
      LocatedZero(p, ws, ys, r);
    }
  }

  lemma LocatedLength(p: Poly, ws: seq<Sym>, ys: seq<Sym>)
    ensures |LocatedWeights(p, ws, ys)| == |ys|
  {
    hide Mul, Horner, At;
  }

  lemma LocatedZero(p: Poly, ws: seq<Sym>, ys: seq<Sym>, r: nat)
    requires r < |ws| == |ys| && ws[r] != 0 && LocatedWeights(p, ws, ys)[r] == 0
    ensures Locates(p, ys[r])
  {
    hide Mul, Horner;
    NoZeroDivisors(ws[r], Horner(p, ys[r], |p|));
  }

  // ----- error weights

  /** The first |p|-1 sums of the recurrence: the error evaluator polynomial. */
  ghost function Evaluator(p: Poly, s: Poly): Poly
    requires |p| > 0
  {
    seq(|p| - 1, (m: nat) => Conv(p, s, m + 1))
  }

  ghost function AddSeq(a: Poly, b: Poly): Poly
    requires |a| == |b|
  {
    seq(|a|, (i: nat) => Add(At(a, i), At(b, i)))
  }

  lemma AtAddSeq(a: Poly, b: Poly, i: int)
    requires |a| == |b|
    ensures |AddSeq(a, b)| == |a| && At(AddSeq(a, b), i) == Add(At(a, i), At(b, i))
  {
    hide Add;
    AddZero(0);
  }

  lemma ConvAddSeq(p: Poly, a: Poly, b: Poly, j: int)
    requires |a| == |b|
    ensures Conv(p, AddSeq(a, b), j) == Add(Conv(p, a, j), Conv(p, b, j))
  {
    hide Add, Mul, At, AddSeq, Sum, Products;
    var f, g, h := Products(p, a, j), Products(p, b, j), Products(p, AddSeq(a, b), j);
    forall i: nat | i < |p| ensures h(i) == Add(f(i), g(i)) {
      ProductsAt(p, a, j, i);
      ProductsAt(p, b, j, i);
      ProductsAt(p, AddSeq(a, b), j, i);
      AtAddSeq(a, b, j - i);
      Distribute(At(p, i), At(a, j - i), At(b, j - i));
    }
    SumPlus(|p|, f, g, h);
  }

  lemma EvalAddSeq(a: Poly, b: Poly, x: Sym)
    requires |a| == |b|
    ensures Eval(AddSeq(a, b), x) == Add(Eval(a, x), Eval(b, x))
  {
    hide Add, Mul, At, AddSeq, Sum, Monomials;
    AtAddSeq(a, b, 0);
    var f, g, h := Monomials(a, x), Monomials(b, x), Monomials(AddSeq(a, b), x);
    forall i: nat | i < |a| ensures h(i) == Add(f(i), g(i)) {
      MonomialsAt(a, x, i);
      MonomialsAt(b, x, i);
      MonomialsAt(AddSeq(a, b), x, i);
      AtAddSeq(a, b, i);
      DistributeRight(At(a, i), At(b, i), Pow(x, i));
    }
    SumPlus(|a|, f, g, h);
  }

  // ----- the evaluator of a power-sum sequence

  ghost function PartialFractions(p: Poly, ws: seq<Sym>, ys: seq<Sym>, z: Sym): nat -> Sym
    requires |p| > 0
  {
    (r: nat) => Mul(At(ws, r), Eval(Deflate(p, At(ys, r)), z))
  }

  ghost function FractionTerms(p: Poly, ws: seq<Sym>, ys: seq<Sym>, z: Sym): (nat, nat) -> Sym {
    (m: nat, r: nat) => Mul(Mul(At(ws, r), Horner(p, At(ys, r), m + 1)), Pow(z, m))
  }

  lemma FractionRow(p: Poly, ws: seq<Sym>, ys: seq<Sym>, n: nat, z: Sym, m: nat)
    requires m < |p| - 1 && |p| - 1 <= n
    ensures Rows(|ys|, FractionTerms(p, ws, ys, z))(m)
         == Monomials(Evaluator(p, Syndromes(ws, ys, n)), z)(m)
  {
    hide Add, Mul, At, Sum, Evaluator, Syndromes, Monomials, Recurrences, FractionTerms, Row, Pow, Conv;
    var s := Syndromes(ws, ys, n);
    MonomialsAt(Evaluator(p, s), z, m);
    EvaluatorAt(p, s, m);
    ConvSyndromes(p, ws, ys, n, m + 1);
    var f, g := Recurrences(p, ws, ys, m + 1), Row(FractionTerms(p, ws, ys, z), m);
    forall r: nat | r < |ys| ensures g(r) == Mul(Pow(z, m), f(r)) {
      FractionRowTerm(p, ws, ys, z, m, r);
    }
    SumTimes(|ys|, Pow(z, m), f, g);
    MulComm(Pow(z, m), Sum(|ys|, f));
  }

  lemma EvaluatorAt(p: Poly, s: Poly, m: nat)
    requires m < |p| - 1
    ensures |Evaluator(p, s)| == |p| - 1 && At(Evaluator(p, s), m) == Conv(p, s, m + 1)
  {
    hide Conv;
  }

  lemma FractionRowTerm(p: Poly, ws: seq<Sym>, ys: seq<Sym>, z: Sym, m: nat, r: nat)
    ensures Row(FractionTerms(p, ws, ys, z), m)(r) == Mul(Pow(z, m), Recurrences(p, ws, ys, m + 1)(r))
  {
    hide Mul, At, Pow, Horner;
    MulComm(Mul(At(ws, r), Horner(p, At(ys, r), m + 1)), Pow(z, m));
  }

  lemma FractionColumn(p: Poly, ws: seq<Sym>, ys: seq<Sym>, z: Sym, r: nat)
    requires |p| > 0
    ensures Columns(|p| - 1, FractionTerms(p, ws, ys, z))(r) == PartialFractions(p, ws, ys, z)(r)
  {
    hide Add, Mul, At, Sum, FractionTerms, Column, Monomials, Deflate;
    var q := Deflate(p, At(ys, r));
    DeflateLength(p, At(ys, r));
    var f, g := Monomials(q, z), Column(FractionTerms(p, ws, ys, z), r);
    forall m: nat | m < |p| - 1 ensures g(m) == Mul(At(ws, r), f(m)) {
      FractionColumnTerm(p, ws, ys, z, r, m);
    }
    SumTimes(|p| - 1, At(ws, r), f, g);
  }

  lemma FractionColumnTerm(p: Poly, ws: seq<Sym>, ys: seq<Sym>, z: Sym, r: nat, m: nat)
    requires m < |p| - 1
    ensures Column(FractionTerms(p, ws, ys, z), r)(m)
         == Mul(At(ws, r), Monomials(Deflate(p, At(ys, r)), z)(m))
  {
    hide Mul, At, Pow, Horner, Monomials, Deflate;
    var y := At(ys, r);
    MonomialsAt(Deflate(p, y), z, m);
    DeflateAt(p, y, m);
    MulAssoc(At(ws, r), Horner(p, y, m + 1), Pow(z, m));
  }

  lemma DeflateAt(p: Poly, y: Sym, m: nat)
    requires m < |p| - 1
    ensures At(Deflate(p, y), m) == Horner(p, y, m + 1)
  {
    hide Horner;
  }

  /** The evaluator of power sums, divided by the locator polynomial, is a sum of partial fractions. */
  lemma EvaluatorOfSyndromes(p: Poly, ws: seq<Sym>, ys: seq<Sym>, n: nat, z: Sym)
    requires 0 < |p| <= n + 1
    ensures Eval(Evaluator(p, Syndromes(ws, ys, n)), z) == Sum(|ys|, PartialFractions(p, ws, ys, z))
  {
    hide Add, Mul, At, Sum, Rows, Columns, Monomials, PartialFractions, FractionTerms, Syndromes, Conv;
    var l := |p| - 1;
    var e := Evaluator(p, Syndromes(ws, ys, n));
    var f := FractionTerms(p, ws, ys, z);
    forall m: nat | m < l ensures Rows(|ys|, f)(m) == Monomials(e, z)(m) {
      FractionRow(p, ws, ys, n, z, m);
    }
    SumSame(l, Rows(|ys|, f), Monomials(e, z));
    SumExchange(l, |ys|, f);
    forall r: nat | r < |ys| ensures Columns(l, f)(r) == PartialFractions(p, ws, ys, z)(r) {
      FractionColumn(p, ws, ys, z, r);
    }
    SumSame(|ys|, Columns(l, f), PartialFractions(p, ws, ys, z));
  }

  // ----- Forney's weights reproduce the whole sequence

  /** A recurrence with constant term 1 that yields zero from place 1 on has only the zero sequence. */
  lemma {:induction false} ZeroSequence(p: Poly, d: Poly, n: nat, j: nat)
    requires |p| > 0 && p[0] == 1 && At(d, 0) == 0 && j <= n
    requires forall k :: 1 <= k <= n ==> Conv(p, d, k) == 0
    ensures forall k :: 0 <= k <= j ==> At(d, k) == 0
  {
    hide Add, Mul, At, Conv;
    if j > 0 {
      ZeroSequence(p, d, n, j - 1);
      LeadingTerm(p, d, j);
    }
  }

  lemma LeadingTerm(p: Poly, d: Poly, j: nat)
    requires |p| > 0 && p[0] == 1 && forall k :: 0 <= k < j ==> At(d, k) == 0
    ensures Conv(p, d, j) == At(d, j)
  {
    hide Add, Mul, At, Sum, Products;
    var f := Products(p, d, j);
    forall i: nat | i < |p| && i != 0 ensures f(i) == 0 {
      ProductsAt(p, d, j, i);
      if i > j {
        AtOutside(d, j - i);
      }
      MulOne(At(p, i));
    }
    SumOne(|p|, 0, f);
    ProductsAt(p, d, j, 0);
    AtInside(p, 0);
    MulOne(At(d, j));
  }

  /** The quotient by one locator still vanishes at the root of any other. */
  lemma QuotientVanishes(p: Poly, y: Sym, y': Sym, z: Sym)
    requires |p| > 1 && Locates(p, y) && Locates(p, y') && y != y' && Mul(y', z) == 1
    ensures Eval(Deflate(p, y), z) == 0
  {
    hide Add, Mul, At, Deflate, Locates, Eval;
    DeflateTimes(p, y);
    DeflateLength(p, y);
    LocatesTimes(Deflate(p, y), y, y');
    LocatesRoot(Deflate(p, y), y', z);
  }

  ghost predicate Inverses(ys: seq<Sym>, zs: seq<Sym>) {
    |ys| == |zs| && forall i :: 0 <= i < |ys| ==> Mul(ys[i], zs[i]) == 1
  }

  /** p has degree |ys| and its roots are exactly the inverses zs of the distinct locators ys. */
  ghost predicate Located(p: Poly, ys: seq<Sym>, zs: seq<Sym>) {
    && |p| == |ys| + 1 && p[0] == 1 && Distinct(ys) && Inverses(ys, zs)
    && forall i :: 0 <= i < |ys| ==> Locates(p, ys[i])
  }

  lemma EvaluatorAtRoot(p: Poly, ws: seq<Sym>, ys: seq<Sym>, zs: seq<Sym>, n: nat, i: nat)
    requires Located(p, ys, zs) && i < |ys| == |ws| && |p| <= n + 1
    ensures Eval(Evaluator(p, Syndromes(ws, ys, n)), zs[i]) == Mul(ws[i], Eval(Deflate(p, ys[i]), zs[i]))
  {
    hide Add, Mul, Sum, Eval, Deflate, Locates, Syndromes, Evaluator;
    EvaluatorOfSyndromes(p, ws, ys, n, zs[i]);
    var f := PartialFractions(p, ws, ys, zs[i]);
    forall r: nat | r < |ys| && r != i ensures f(r) == 0 {
      QuotientVanishes(p, ys[r], ys[i], zs[i]);
      MulOne(ws[r]);
    }
    SumOne(|ys|, i, f);
  }

  lemma EvaluatorAddSeq(p: Poly, a: Poly, b: Poly)
    requires |p| > 0 && |a| == |b|
    ensures |Evaluator(p, a)| == |Evaluator(p, b)|
    ensures Evaluator(p, AddSeq(a, b)) == AddSeq(Evaluator(p, a), Evaluator(p, b))
  {
    hide Add, Conv, At, AddSeq;
    var c, d := Evaluator(p, a), Evaluator(p, b);
    AtAddSeq(c, d, 0);
    forall m: nat | m < |p| - 1 ensures Evaluator(p, AddSeq(a, b))[m] == AddSeq(c, d)[m] {
      AtAddSeq(c, d, m);
      AtInside(AddSeq(c, d), m);
      AtInside(c, m);
      AtInside(d, m);
      ConvAddSeq(p, a, b, m + 1);
    }
  }

  /** Forney's equation for the weight w of the locator y, whose inverse is z. */
  ghost predicate ForneyEquation(p: Poly, s: Poly, w: Sym, y: Sym, z: Sym)
    requires |p| > 0
  {
    Mul(w, Eval(Deflate(p, y), z)) == Eval(Evaluator(p, s), z)
  }

  ghost predicate ForneyWeights(p: Poly, s: Poly, ws: seq<Sym>, ys: seq<Sym>, zs: seq<Sym>)
    requires |p| > 0 && |ws| == |ys| == |zs|
  {
    forall i :: 0 <= i < |ys| ==> ForneyEquation(p, s, ws[i], ys[i], zs[i])
  }

  lemma DifferenceAtRoot(p: Poly, s: Poly, ws: seq<Sym>, ys: seq<Sym>, zs: seq<Sym>, n: nat, i: nat)
    requires Located(p, ys, zs) && |ws| == |ys| && |p| <= n + 1 && |s| == n + 1
    requires ForneyWeights(p, s, ws, ys, zs) && i < |ys|
    ensures |Syndromes(ws, ys, n)| == n + 1
    ensures Locates(Evaluator(p, AddSeq(s, Syndromes(ws, ys, n))), ys[i])
  {
    hide Add, Mul, Sum, Eval, Deflate, Locates, PowerSum, Evaluator, AddSeq;
    var t := Syndromes(ws, ys, n);
    EvaluatorAddSeq(p, s, t);
    EvalAddSeq(Evaluator(p, s), Evaluator(p, t), zs[i]);
    EvaluatorAtRoot(p, ws, ys, zs, n, i);
    AddCancel(Eval(Evaluator(p, s), zs[i]), Eval(Evaluator(p, t), zs[i]));
    EvaluatorAt(p, AddSeq(s, t), 0);
    LocatesRoot(Evaluator(p, AddSeq(s, t)), ys[i], zs[i]);
  }

  lemma DifferenceVanishes(p: Poly, s: Poly, ws: seq<Sym>, ys: seq<Sym>, zs: seq<Sym>, n: nat, j: nat)
    requires Located(p, ys, zs) && |ws| == |ys| && |p| <= n + 1 && |s| == n + 1
    requires ForneyWeights(p, s, ws, ys, zs) && Generates(p, s, n) && 1 <= j <= n
    ensures |Syndromes(ws, ys, n)| == n + 1
    ensures Conv(p, AddSeq(s, Syndromes(ws, ys, n)), j) == 0
  {
    hide Add, Mul, Conv, Locates, PowerSum, Evaluator, AddSeq, ForneyWeights;
    var t := Syndromes(ws, ys, n);
    if j >= |p| {
      ConvAddSeq(p, s, t, j);
      LocatedRecurrence(p, ws, ys, n, j);
      AddZero(0);
    } else {
      forall i | 0 <= i < |ys| ensures Locates(Evaluator(p, AddSeq(s, t)), ys[i]) {
        DifferenceAtRoot(p, s, ws, ys, zs, n, i);
      }
      EvaluatorAt(p, AddSeq(s, t), j - 1);
      TooManyLocators(Evaluator(p, AddSeq(s, t)), ys);
      AtInside(Evaluator(p, AddSeq(s, t)), j - 1);
    }
  }

  /** Weights that satisfy Forney's equation at every root account for the whole sequence s[1..n]. */
  lemma WeightsReproduce(p: Poly, s: Poly, ws: seq<Sym>, ys: seq<Sym>, zs: seq<Sym>, n: nat)
    requires Located(p, ys, zs) && |ws| == |ys| && |p| <= n + 1 && |s| == n + 1 && s[0] == 0
    requires ForneyWeights(p, s, ws, ys, zs) && Generates(p, s, n)
    ensures s == Syndromes(ws, ys, n)
  {
    hide Add, Conv, PowerSum, ForneyWeights, Located, Generates, AddSeq;
    var t := Syndromes(ws, ys, n);
    var d := AddSeq(s, t);
    forall j | 1 <= j <= n ensures Conv(p, d, j) == 0 {
      DifferenceVanishes(p, s, ws, ys, zs, n, j);
    }
    AtAddSeq(s, t, 0);
    AddZero(0);
    assert |p| > 0 && p[0] == 1 by { LocatedShape(p, ys, zs); }
    ZeroSequence(p, d, n, n);
    forall j | 0 <= j <= n ensures s[j] == t[j] {
      AtAddSeq(s, t, j);
      AddCancel(s[j], t[j]);
    }
  }

  lemma LocatedShape(p: Poly, ys: seq<Sym>, zs: seq<Sym>)
    requires Located(p, ys, zs)
    ensures |p| > 0 && p[0] == 1
  {}

  // ----- the denominators

  ghost function Without(ys: seq<Sym>, i: nat): seq<Sym>
    requires i < |ys|
  {
    ys[..i] + ys[i + 1..]
  }

  /** The quotient by one locator, at its own root, is the product over the other locators. */
  lemma Denominator(p: Poly, ys: seq<Sym>, zs: seq<Sym>, i: nat)
    requires Located(p, ys, zs) && i < |ys|
    ensures Eval(Deflate(p, ys[i]), zs[i]) == LocatorProduct(Without(ys, i), zs[i])
  {
    hide Add, Mul, Eval, Deflate, Locates, LocatorProduct;
    var q, rest := Deflate(p, ys[i]), Without(ys, i);
    DeflateLength(p, ys[i]);
    DeflateTimes(p, ys[i]);
    forall k | 0 <= k < |rest| ensures Locates(q, rest[k]) {
      LocatesTimes(q, ys[i], rest[k]);
    }
    Factorisation(q, rest, zs[i]);
  }

  /** No more distinct roots than the length of the recurrence. */
  lemma LocatorCount(p: Poly, ys: seq<Sym>)
    requires |p| > 0 && p[0] == 1 && Distinct(ys) && forall i :: 0 <= i < |ys| ==> Locates(p, ys[i])
    ensures |ys| < |p|
  {
    hide Locates;
    if |ys| >= |p| {
      TooManyLocators(p, ys[..|p|]);
    }
  }
}
