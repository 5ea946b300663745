/** The last part of decode_rs: Chien's root search and Forney's error values. */
module Correction {
  import opened BitMultiplier
  import opened GF256
  import opened Sums
  import opened Polynomials
  import opened PowerSums
  import opened Forney
  import opened Words
  import opened Tables
  import opened Encoder
  import opened SyndromeStep
  import opened KeyEquation

  // ----- Chien search

  /** The register j after i rounds: the index form of p[j] times @^(i*j). */
  ghost function Register(p: Poly, j: nat, i: nat): int {
    Idx(Mul(At(p, j), Exp(i * j)))
  }

  lemma RegisterStart(p: Poly, j: nat)
    requires j < |p|
    ensures Register(p, j, 0) == Idx(p[j])
  {
    hide Mul, Exp, Idx;
    ExpStep(0);
    assert 0 * j == 0;
    MulOne(p[j]);
  }

  lemma RegisterStep(p: Poly, j: nat, i: nat)
    requires j < |p|
    ensures -1 <= Register(p, j, i) < NN
    ensures Register(p, j, i) == -1 <==> p[j] == 0
    ensures p[j] == 0 ==> Register(p, j, i + 1) == -1 && Monomials(p, Exp(i + 1))(j) == 0
    ensures p[j] != 0 ==>
              && Register(p, j, i + 1) == (Register(p, j, i) + j) % NN
              && 0 <= Register(p, j, i + 1) < NN
              && Exp(Register(p, j, i + 1)) == Monomials(p, Exp(i + 1))(j)
  {
    hide Mul, Exp, Idx, Pow;
    var a, e := p[j], Exp(i * j);
    IdxRange(Mul(a, e));
    IdxRange(Mul(a, Exp((i + 1) * j)));
    NoZeroDivisors(a, e);
    NoZeroDivisors(a, Exp((i + 1) * j));
    ExpNonzero(i * j);
    ExpNonzero((i + 1) * j);
    PowExp(i + 1, j, (i + 1) * j);
    if a != 0 {
      assert i * j + j == (i + 1) * j;
      ExpAdd(i * j, j);
      MulAssoc(a, e, Exp(j));
      IndexSum(Mul(a, e), j);
      IdxExp((Idx(Mul(a, e)) + j) % NN);
      ModMod(Idx(Mul(a, e)) + j);
    }
  }

  lemma ModMod(x: int)
    ensures x % NN % NN == x % NN
  {}

  ghost predicate Root(p: Poly, i: nat) {
    Eval(p, Exp(i)) == 0
  }

  /** roots lists the exponents 1 .. m whose power is a root of p, in increasing order. */
  ghost predicate RootList(p: Poly, roots: seq<nat>, m: nat) {
    && (forall k :: 0 <= k < |roots| ==> 1 <= roots[k] <= m && Root(p, roots[k]))
    && (forall k, k' :: 0 <= k < k' < |roots| ==> roots[k] < roots[k'])
    && (forall i :: 1 <= i <= m && Root(p, i) ==> i in roots)
  }

  /** The places of the errors: exponents 1 .. NN of roots become places NN-1 .. 0. */
  ghost function LocsOf(roots: seq<nat>): (locs: seq<nat>)
    ensures |locs| == |roots|
  {
    seq(|roots|, k requires 0 <= k < |roots| => if roots[k] <= NN then NN - roots[k] else 0)
  }

  ghost function PowersOf(roots: seq<nat>): (zs: seq<Sym>)
    ensures |zs| == |roots|
  {
    seq(|roots|, k requires 0 <= k < |roots| => Exp(roots[k]))
  }

  lemma InversePowers(i: nat)
    requires i <= NN
    ensures Mul(Exp(NN - i), Exp(i)) == 1
  {
    hide Exp, Mul;
    ExpAdd(NN - i, i);
    OrderFacts();
  }

  /** The roots found make up a located polynomial; there are no more of them than the degree. */
  lemma RootsLocate(p: Poly, roots: seq<nat>, m: nat)
    requires |p| > 0 && p[0] == 1 && m <= NN && RootList(p, roots, m)
    ensures Places(LocsOf(roots), NN)
    ensures forall k :: 0 <= k < |roots| ==> Locates(p, LocatorsOf(LocsOf(roots))[k])
    ensures Distinct(LocatorsOf(LocsOf(roots))) && Inverses(LocatorsOf(LocsOf(roots)), PowersOf(roots))
    ensures |roots| < |p|
  {
    hide Exp, Mul, Eval, Locates;
    var locs := LocsOf(roots);
    LocatorsDistinct(locs);
    var ys, zs := LocatorsOf(locs), PowersOf(roots);
    forall k | 0 <= k < |roots| ensures Mul(ys[k], zs[k]) == 1 && Locates(p, ys[k]) {
      InversePowers(roots[k]);
      LocatesRoot(p, ys[k], zs[k]);
      assert Root(p, roots[k]);
    }
    LocatorCount(p, ys);
  }

  lemma RootListExtends(p: Poly, roots: seq<nat>, i: nat)
    requires RootList(p, roots, i)
    ensures Root(p, i + 1) ==> RootList(p, roots + [i + 1], i + 1)
    ensures !Root(p, i + 1) ==> RootList(p, roots, i + 1)
  {
    hide Root;
    forall x | 1 <= x <= i + 1 && Root(p, x) ensures x in roots + [i + 1] && (x <= i ==> x in roots) {
      if x <= i {
        assert x in roots;
      }
    }
  }

  lemma NoRoots(p: Poly)
    ensures RootList(p, [], 0)
  {}

  ghost predicate Registers(reg: array<int>, p: Poly, lo: nat, hi: nat, i: nat)
    reads reg
  {
    hi <= |p| <= reg.Length && forall j :: lo <= j < hi ==> reg[j] == Register(p, j, i)
  }

  /** One round of the search: the registers advance and q becomes the value of p at @^(i+1). */
  method ChienRound(alphaTo: array<int>, indexOf: array<int>, reg: array<int>, lu: nat, ghost p: Poly, ghost i: nat)
    returns (q: int)
    requires Ready(alphaTo, indexOf) && reg != alphaTo && reg != indexOf
    requires |p| == lu + 1 <= reg.Length && p[0] == 1 && Registers(reg, p, 1, |p|, i)
    modifies reg
    ensures Registers(reg, p, 1, |p|, i + 1)
    ensures 0 <= q < 256 && q == Eval(p, Exp(i + 1))
  {
    hide Xor, Galois, Add, Mul, Exp, Idx, Register, Sum, Monomials;
    FieldOperations();
    ghost var f := Monomials(p, Exp(i + 1));
    q := 1;
    FirstTerm(p, Exp(i + 1));
    for j := 1 to lu + 1
      invariant 0 <= q < 256 && q == Sum(j, f)
      invariant Registers(reg, p, 1, j, i + 1) && Registers(reg, p, j, |p|, i)
    {
      RegisterStep(p, j, i);
      SumStep(j, f);
      if reg[j] != -1 {
        reg[j] := (reg[j] + j) % NN;
        q := Xor(q, alphaTo[reg[j]]);
      }
    }
  }

  lemma FirstTerm(p: Poly, x: Sym)
    requires |p| > 0
    ensures Sum(1, Monomials(p, x)) == p[0]
  {
    hide Add, Mul;
    MulOne(p[0]);
    AddZero(p[0]);
    SumStep(0, Monomials(p, x));
    assert Pow(x, 0) == 1;
  }

  method ChienSearch(alphaTo: array<int>, indexOf: array<int>, elp: array2<int>, reg: array<int>,
                     root: array<int>, loc: array<int>, u: nat, lu: nat, tt: nat, ghost p: Poly)
    returns (count: nat, ghost roots: seq<nat>)
    requires Ready(alphaTo, indexOf) && RowIndexed(elp, u, p) && |p| == lu + 1 && p[0] == 1 && lu <= tt
    requires reg.Length == tt + 1 && root.Length == tt && loc.Length == tt
    requires reg != alphaTo && reg != indexOf && root != alphaTo && root != indexOf && loc != alphaTo && loc != indexOf
    requires reg != root && reg != loc && root != loc
    modifies reg, root, loc
    ensures RootList(p, roots, NN) && count == |roots| <= lu
    ensures forall k :: 0 <= k < count ==> root[k] == roots[k] && loc[k] == NN - roots[k]
  {
    hide Exp, Idx, Register, Eval, Root, RootList;
    for i := 1 to lu + 1
      invariant Registers(reg, p, 1, i, 0)
    {
      RegisterStart(p, i);
      reg[i] := elp[u, i];
    }
    count := 0;
    roots := [];
    NoRoots(p);
    for i := 1 to NN + 1
      invariant Registers(reg, p, 1, |p|, i - 1)
      invariant RootList(p, roots, i - 1) && count == |roots| <= lu
      invariant forall k :: 0 <= k < count ==> root[k] == roots[k] && loc[k] == NN - roots[k]
    {
      var q := ChienRound(alphaTo, indexOf, reg, lu, p, i - 1);
      RootListExtends(p, roots, i - 1);
      RootIs(p, i);
      if q == 0 {
        RootsLocate(p, roots + [i], i);
        root[count] := i;
        loc[count] := NN - i;
        count := count + 1;
        roots := roots + [i];
      }
    }
  }

  lemma RootIs(p: Poly, i: nat)
    ensures Root(p, i) <==> Eval(p, Exp(i)) == 0
  {}

  // ----- the polynomial z(X)

  /** z(X) = p(X) + X * (evaluator of the syndromes). */
  ghost function ZPoly(p: Poly, S: Poly): Poly
    requires |p| > 0
  {
    AddSeq(p, [0] + Evaluator(p, S))
  }

  lemma ZPolyAt(p: Poly, S: Poly, i: nat)
    requires i < |p|
    ensures |ZPoly(p, S)| == |p|
    ensures i > 0 ==> ZPoly(p, S)[i] == Add(p[i], Conv(p, S, i))
    ensures i == 0 ==> ZPoly(p, S)[i] == p[i]
  {
    hide Add, Conv, At, AddSeq;
    var e := [0] + Evaluator(p, S);
    AtAddSeq(p, e, i);
    AtInside(ZPoly(p, S), i);
    AtInside(p, i);
    AtInside(e, i);
    AddZero(p[0]);
    if i > 0 {
      assert e[i] == Conv(p, S, i);
    }
  }

  lemma ZPolyEval(p: Poly, S: Poly, x: Sym)
    requires |p| > 0 && Eval(p, x) == 0
    ensures Eval(ZPoly(p, S), x) == Mul(x, Eval(Evaluator(p, S), x))
  {
    hide Add, Mul, Eval, AddSeq, Conv;
    EvalAddSeq(p, [0] + Evaluator(p, S), x);
    EvalCons(0, Evaluator(p, S), x);
    var c := Mul(x, Eval(Evaluator(p, S), x));
    AddZero(c);
  }

  ghost function CrossProducts(p: Poly, S: Poly, i: nat): nat -> Sym {
    (j: nat) => Mul(At(p, i - j), At(S, j))
  }

  /** The sum that the source forms from s[1] upwards. */
  lemma ConvUpwards(p: Poly, S: Poly, i: nat)
    requires 0 < i < |p| && i < |S| && p[0] == 1 && S[0] == 0
    ensures CrossProducts(p, S, i)(0) == 0
    ensures Conv(p, S, i) == Add(Sum(i, CrossProducts(p, S, i)), S[i])
  {
    hide Add, Mul, At, Products, Sum;
    var f, g := Products(p, S, i), CrossProducts(p, S, i);
    forall k: nat | i + 1 <= k < |p| ensures f(k) == 0 {
      ProductsAt(p, S, i, k);
      AtOutside(S, i - k);
      MulOne(At(p, k));
    }
    SumTrim(i + 1, |p|, f);
    forall j: nat | j < i + 1 ensures g(j) == f(i + 1 - 1 - j) {
      ProductsAt(p, S, i, i - j);
    }
    SumReverse(i + 1, f, g);
    SumStep(i, g);
    AtInside(S, 0);
    AtInside(p, 0);
    AtInside(S, i);
    MulOne(S[i]);
    MulOne(At(p, i));
  }

  lemma CrossTerm(p: Poly, S: Poly, i: nat, j: nat)
    requires j < i < |p| && i < |S|
    ensures p[i - j] == 0 || S[j] == 0 ==> CrossProducts(p, S, i)(j) == 0
    ensures p[i - j] != 0 && S[j] != 0 ==>
              && Idx(p[i - j]) + Idx(S[j]) >= 0
              && Exp((Idx(p[i - j]) + Idx(S[j])) % NN) == CrossProducts(p, S, i)(j)
  {
    hide Mul, Exp, Idx;
    MulOne(p[i - j]);
    MulOne(S[j]);
    if p[i - j] != 0 && S[j] != 0 {
      IdxRange(S[j]);
      IndexSum(p[i - j], Idx(S[j]));
    }
  }

  ghost predicate ZStored(z: array<int>, zp: Poly, hi: nat)
    reads z
  {
    hi <= |zp| <= z.Length && forall i :: 1 <= i < hi ==> z[i] == Idx(zp[i])
  }

  method FormZ(alphaTo: array<int>, indexOf: array<int>, elp: array2<int>, s: array<int>, z: array<int>,
               u: nat, lu: nat, ghost p: Poly, ghost S: Poly)
    requires Ready(alphaTo, indexOf) && RowIndexed(elp, u, p) && |p| == lu + 1 <= z.Length && p[0] == 1
    requires SyndromesStored(s, S) && lu < |S| && S[0] == 0
    requires z != alphaTo && z != indexOf && z != s
    modifies z
    ensures |ZPoly(p, S)| == |p| && ZStored(z, ZPoly(p, S), |p|)
  {
    hide Xor, Galois, Add, Mul, Exp, Idx, Conv, ZPoly, Sum, CrossProducts;
    FieldOperations();
    ghost var zp := ZPoly(p, S);
    ZPolyAt(p, S, 0);
    for i := 1 to lu + 1
      invariant ZStored(z, zp, i)
    {
      ghost var f := CrossProducts(p, S, i);
      IdxRange(S[i]);
      IdxRange(p[i]);
      AddZero(p[i]);
      AddZero(S[i]);
      AddZero(0);
      if s[i] != -1 && elp[u, i] != -1 {
        z[i] := Xor(alphaTo[s[i]], alphaTo[elp[u, i]]);
      } else if s[i] != -1 && elp[u, i] == -1 {
        z[i] := alphaTo[s[i]];
      } else if s[i] == -1 && elp[u, i] != -1 {
        z[i] := alphaTo[elp[u, i]];
      } else {
        z[i] := 0;
      }
      ghost var a := Add(S[i], p[i]);
      assert z[i] == a;
      ConvUpwards(p, S, i);
      SumStep(0, f);
      AddZero(a);
      for j := 1 to i
        invariant 0 <= z[i] < 256 && z[i] == Add(a, Sum(j, f))
        invariant ZStored(z, zp, i)
      {
        CrossTerm(p, S, i, j);
        IdxRange(S[j]);
        IdxRange(p[i - j]);
        SumStep(j, f);
        AddAssoc(a, Sum(j, f), f(j));
        if s[j] != -1 && elp[u, i - j] != -1 {
          z[i] := Xor(z[i], alphaTo[(elp[u, i - j] + s[j]) % NN]);
        }
      }
      ZPolyAt(p, S, i);
      ZRegroup(S[i], p[i], Sum(i, f));
      z[i] := indexOf[z[i]];
    }
  }

  lemma ZRegroup(s: Sym, p: Sym, c: Sym)
    ensures Add(Add(s, p), c) == Add(p, Add(c, s))
  {
    hide Add;
    AddComm(s, p);
    AddAssoc(p, s, c);
    AddComm(s, c);
  }

  // ----- error values

  /** The denominator at root i, over the first j locators. */
  ghost function Partial(ys: seq<Sym>, i: nat, j: nat): seq<Sym>
    requires i < |ys| && j <= |ys|
  {
    if j <= i then ys[..j] else Without(ys[..j], i)
  }

  lemma PartialSnoc(ys: seq<Sym>, i: nat, j: nat)
    requires i < |ys| && j < |ys| && i != j
    ensures Partial(ys, i, j + 1) == Partial(ys, i, j) + [ys[j]]
  {
    assert ys[..j + 1] == ys[..j] + [ys[j]];
    if j > i {
      assert (ys[..j] + [ys[j]])[i + 1..] == ys[..j][i + 1..] + [ys[j]];
    }
  }

  lemma PartialStep(ys: seq<Sym>, i: nat, j: nat, x: Sym)
    requires i < |ys| && j < |ys|
    ensures LocatorProduct(Partial(ys, i, 0), x) == 1
    ensures j == i ==> Partial(ys, i, j + 1) == Partial(ys, i, j)
    ensures j != i ==>
              LocatorProduct(Partial(ys, i, j + 1), x)
              == Mul(Add(1, Mul(ys[j], x)), LocatorProduct(Partial(ys, i, j), x))
  {
    hide Add, Mul;
    if j != i {
      var a, b := Partial(ys, i, j), Partial(ys, i, j + 1);
      PartialSnoc(ys, i, j);
      assert b[..|b| - 1] == a;
    }
  }

  /** A factor of the denominator, found through the tables, is never zero. */
  lemma DenominatorFactor(ys: seq<Sym>, zs: seq<Sym>, locs: seq<nat>, roots: seq<nat>, i: nat, j: nat)
    requires Distinct(ys) && Inverses(ys, zs) && i < |ys| && j < |ys| && i != j
    requires |locs| == |roots| == |ys| && ys[j] == Exp(locs[j]) && zs[i] == Exp(roots[i])
    ensures Add(1, Exp((locs[j] + roots[i]) % NN)) == Add(1, Mul(ys[j], zs[i]))
    ensures Add(1, Mul(ys[j], zs[i])) != 0
  {
    hide Add, Mul, Exp;
    ExpPeriod(locs[j] + roots[i]);
    ExpAdd(locs[j], roots[i]);
    AddCancel(1, Mul(ys[j], zs[i]));
    if Mul(ys[j], zs[i]) == 1 {
      MulComm(ys[j], zs[i]);
      MulComm(ys[i], zs[i]);
      MulOne(ys[i]);
      assert zs[i] != 0;
      MulCancel(zs[i], ys[i], ys[j]);
    }
  }

  lemma WeightAlgebra(omega: Sym, num: Sym, e: Sym, den: Sym, x: Sym, f: Sym, y: Sym)
    requires num == Mul(x, omega) && Mul(e, den) == Mul(num, f) && Mul(Mul(x, f), y) == 1
    ensures Mul(Mul(e, y), den) == omega
  {
    hide *;
    MulAssoc(e, y, den);
    MulComm(y, den);
    MulAssoc(e, den, y);
    MulComm(x, omega);
    MulAssoc(omega, x, f);
    MulAssoc(omega, Mul(x, f), y);
    MulOne(omega);
  }

  lemma ExponentSum(root: nat, k: nat, m: nat, b0: nat)
    requires root <= NN && k == root * (b0 + NN - 1) && m == b0 * (NN - root)
    ensures root + k + m == (b0 + root) * 255
  {}

  lemma FullTurns(turns: nat, n: nat)
    requires n == turns * 255
    ensures Exp(n) == 1
  {
    hide *;
    OrderFacts();
    ExpMultiple(255, turns, n);
  }

  lemma PowersCancel(root: nat, k: nat, m: nat, b0: nat)
    requires root <= NN && k == root * (b0 + NN - 1) && m == b0 * (NN - root)
    ensures Mul(Mul(Exp(root), Exp(k)), Exp(m)) == 1
  {
    hide Exp, Mul;
    ExponentSum(root, k, m, b0);
    FullTurns(b0 + root, root + k + m);
    ExpAdd(root, k);
    ExpAdd(root + k, m);
  }

  /** What the numerator, the factor X^(1-b0) and the denominator amount to: one of Forney's weights. */
  lemma WeightEquation(omega: Sym, num: Sym, e: Sym, den: Sym, root: nat, k: nat, m: nat, b0: nat)
    requires root <= NN && k == root * (b0 + NN - 1) && m == b0 * (NN - root)
    requires num == Mul(Exp(root), omega) && Mul(e, den) == Mul(num, Exp(k))
    ensures Mul(Mul(e, Exp(m)), den) == omega
  {
    hide *;
    PowersCancel(root, k, m, b0);
    WeightAlgebra(omega, num, e, den, Exp(root), Exp(k), Exp(m));
  }

  lemma Quotients(a: Sym, den: Sym, q: nat)
    requires a != 0 && den == Exp(q)
    ensures Idx(a) - q % NN + NN >= 0
    ensures Mul(Exp((Idx(a) - q % NN + NN) % NN), den) == a
  {
    hide Exp, Mul, Idx;
    IdxRange(a);
    var k := q % NN;
    ExpPeriod(q);
    ExpPeriod(Idx(a) - k + NN);
    ExpAdd(Idx(a) - k + NN, k);
    ExpPeriod(Idx(a) + NN);
    ExpPeriod(Idx(a));
  }

  ghost predicate RootsStored(root: array<int>, loc: array<int>, roots: seq<nat>)
    reads root, loc
  {
    && |roots| <= root.Length && |roots| <= loc.Length
    && forall k :: 0 <= k < |roots| ==> root[k] == roots[k] <= NN && loc[k] == NN - roots[k]
  }

  /** The sum of the indices of the denominator's factors. */
  method DenominatorIndex(alphaTo: array<int>, indexOf: array<int>, root: array<int>, loc: array<int>,
                          lu: nat, i: nat, ghost roots: seq<nat>, ghost ys: seq<Sym>, ghost zs: seq<Sym>)
    returns (q: nat)
    requires Ready(alphaTo, indexOf) && RootsStored(root, loc, roots) && |roots| == lu && i < lu
    requires ys == LocatorsOf(LocsOf(roots)) && zs == PowersOf(roots) && Distinct(ys) && Inverses(ys, zs)
    ensures Exp(q) == LocatorProduct(Without(ys, i), zs[i])
  {
    hide Xor, Galois, Add, Mul, Exp, Idx, LocatorProduct;
    FieldOperations();
    q := 0;
    ExpStep(0);
    PartialStep(ys, i, 0, zs[i]);
    for j := 0 to lu
      invariant Exp(q) == LocatorProduct(Partial(ys, i, j), zs[i])
    {
      PartialStep(ys, i, j, zs[i]);
      if j != i {
        DenominatorFactor(ys, zs, LocsOf(roots), roots, i, j);
        ghost var f := Add(1, Mul(ys[j], zs[i]));
        IdxRange(f);
        ExpAdd(Idx(f), q);
        q := q + indexOf[Xor(1, alphaTo[(loc[j] + root[i]) % NN])];
      }
    }
    assert Partial(ys, i, lu) == Without(ys, i) by {
      assert ys[..lu] == ys;
    }
  }

  /** z evaluated at the inverse of a locator. */
  method Numerator(alphaTo: array<int>, indexOf: array<int>, z: array<int>, lu: nat, r: nat, ghost zp: Poly)
    returns (num: int)
    requires Ready(alphaTo, indexOf) && |zp| == lu + 1 && zp[0] == 1 && ZStored(z, zp, |zp|)
    ensures 0 <= num < 256 && num == Eval(zp, Exp(r))
  {
    hide Xor, Galois, Add, Mul, Exp, Idx, Sum, Monomials;
    FieldOperations();
    ghost var f := Monomials(zp, Exp(r));
    num := 1;
    FirstTerm(zp, Exp(r));
    for j := 1 to lu + 1
      invariant 0 <= num < 256 && num == Sum(j, f)
    {
      SumStep(j, f);
      IdxRange(zp[j]);
      if z[j] != -1 {
        IndexTerm(zp, r, j);
        assert r * j == j * r;
        num := Xor(num, alphaTo[(z[j] + j * r) % NN]);
      } else {
        ZeroTerm(zp, Exp(r), j);
      }
    }
  }

  lemma WeightIs(e: Sym, b: nat, loc: nat, m: nat)
    requires m == b * loc
    ensures Weight(e, b, loc) == Mul(e, Exp(m))
  {
    hide Mul, Exp;
  }

  /** The error value at root i. */
  method ErrorValue(alphaTo: array<int>, indexOf: array<int>, z: array<int>, root: array<int>, loc: array<int>,
                    lu: nat, i: nat, b0: nat, ghost p: Poly, ghost S: Poly, ghost roots: seq<nat>,
                    ghost ys: seq<Sym>, ghost zs: seq<Sym>)
    returns (e: int)
    requires Ready(alphaTo, indexOf) && RootsStored(root, loc, roots) && |roots| == lu && i < lu
    requires ys == LocatorsOf(LocsOf(roots)) && zs == PowersOf(roots) && Located(p, ys, zs) && |p| == lu + 1
    requires |ZPoly(p, S)| == |p| && ZStored(z, ZPoly(p, S), |p|) && Root(p, roots[i])
    ensures 0 <= e < 256
    ensures ForneyEquation(p, S, Weight(e, b0, NN - roots[i]), ys[i], zs[i])
  {
    hide Add, Mul, Exp, Idx, ZPoly, Eval, Evaluator, Deflate, LocatorProduct, Locates, Weight;
    ghost var r, x := roots[i], zs[i];
    ghost var omega, den := Eval(Evaluator(p, S), x), Eval(Deflate(p, ys[i]), x);
    ZPolyAt(p, S, 0);
    ZPolyEval(p, S, x);
    Denominator(p, ys, zs, i);
    e := Numerator(alphaTo, indexOf, z, lu, root[i], ZPoly(p, S));
    ghost var num: Sym := e;
    ghost var k := r * (b0 + NN - 1);
    ghost var scaled := Mul(num, Exp(k));
    if e != 0 {
      IndexSum(num, k);
      e := alphaTo[(indexOf[e] + root[i] * (b0 + NN - 1)) % NN];
    }
    MulOne(Exp(k));
    assert e == scaled;
    if e != 0 {
      e := indexOf[e];
      var q := DenominatorIndex(alphaTo, indexOf, root, loc, lu, i, roots, ys, zs);
      Quotients(scaled, den, q);
      q := q % NN;
      e := alphaTo[(e - q + NN) % NN];
    }
    MulOne(den);
    ghost var m := b0 * (NN - r);
    WeightIs(e, b0, NN - r, m);
    WeightEquation(omega, num, e, den, r, k, m, b0);
  }
}
