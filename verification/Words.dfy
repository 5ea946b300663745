/** Words of the code: evaluation, distance, and the effect of errors on syndromes. */
module Words {
  import opened BitMultiplier
  import opened GF256
  import opened Sums
  import opened Polynomials
  import opened PowerSums
  import opened Forney

  /** A received or transmitted word, as the polynomial of its symbols. */
  ghost predicate IsWord(w: Poly) {
    |w| == NN
  }

  /** Syndrome j of w, numbered from 1: its value at @^(b+j-1). */
  ghost function Syndrome(w: Poly, b: nat, j: nat): Sym {
    if j == 0 then 0 else Eval(w, Exp(b + j - 1))
  }

  ghost function SyndromeSeq(w: Poly, b: nat, n: nat): Poly {
    seq(n + 1, (j: nat) => Syndrome(w, b, j))
  }

  /** The words that vanish at the n roots of the generator polynomial. */
  ghost predicate IsCodeword(w: Poly, b: nat, n: nat) {
    IsWord(w) && forall j :: 1 <= j <= n ==> Syndrome(w, b, j) == 0
  }

  // ----- corrections

  ghost predicate Places(locs: seq<nat>, n: nat) {
    && (forall i :: 0 <= i < |locs| ==> locs[i] < n)
    && (forall i, j :: 0 <= i < j < |locs| ==> locs[i] != locs[j])
  }

  /** The word w with errs[k] added at place locs[k], for every k. */
  ghost function Corrected(w: Poly, locs: seq<nat>, errs: seq<Sym>): (r: Poly)
    requires |locs| == |errs| && Places(locs, |w|)
    ensures |r| == |w|
  {
    if |locs| == 0 then w
    else
      var n := |locs| - 1;
      var v := Corrected(w, locs[..n], errs[..n]);
      v[locs[n] := Add(v[locs[n]], errs[n])]
  }

  ghost function Corrections(locs: seq<nat>, errs: seq<Sym>, x: Sym): nat -> Sym
    requires |locs| == |errs|
  {
    (k: nat) => if k < |locs| then Mul(errs[k], Pow(x, locs[k])) else 0
  }

  ghost function Spike(k: nat, v: Sym): nat -> Sym {
    (i: nat) => if i == k then v else 0
  }

  lemma EvalUpdate(w: Poly, k: nat, e: Sym, x: Sym)
    requires k < |w|
    ensures Eval(w[k := Add(w[k], e)], x) == Add(Eval(w, x), Mul(e, Pow(x, k)))
  {
    hide Add, Mul, Sum, Monomials, At;
    var v := w[k := Add(w[k], e)];
    var f, h, g := Monomials(w, x), Monomials(v, x), Spike(k, Mul(e, Pow(x, k)));
    forall i: nat | i < |w| ensures h(i) == Add(f(i), g(i)) {
      MonomialsAt(w, x, i);
      MonomialsAt(v, x, i);
      AtInside(w, i);
      AtInside(v, i);
      DistributeRight(w[k], e, Pow(x, k));
      AddZero(f(i));
    }
    SumPlus(|w|, f, g, h);
    SumOne(|w|, k, g);
  }

  lemma {:induction false} EvalCorrected(w: Poly, locs: seq<nat>, errs: seq<Sym>, x: Sym)
    requires |locs| == |errs| && Places(locs, |w|)
    ensures Eval(Corrected(w, locs, errs), x) == Add(Eval(w, x), Sum(|locs|, Corrections(locs, errs, x)))
    decreases |locs|
  {
    hide Add, Mul, Eval, Pow;
    if |locs| == 0 {
      AddZero(Eval(w, x));
    } else {
      var n := |locs| - 1;
      var v := Corrected(w, locs[..n], errs[..n]);
      EvalCorrected(w, locs[..n], errs[..n], x);
      EvalUpdate(v, locs[n], errs[n], x);
      var f, g := Corrections(locs, errs, x), Corrections(locs[..n], errs[..n], x);
      SumSame(n, f, g);
      AddAssoc(Eval(w, x), Sum(n, f), f(n));
    }
  }

  ghost function LocatorsOf(locs: seq<nat>): seq<Sym> {
    seq(|locs|, i requires 0 <= i < |locs| => Exp(locs[i]))
  }

  /** The weight of an error e at place loc, when the first root is @^b. */
  ghost function Weight(e: Sym, b: nat, loc: nat): Sym {
    Mul(e, Exp(b * loc))
  }

  ghost function WeightsOf(locs: seq<nat>, errs: seq<Sym>, b: nat): seq<Sym>
    requires |locs| == |errs|
  {
    seq(|locs|, i requires 0 <= i < |locs| => Weight(errs[i], b, locs[i]))
  }

  lemma CorrectionTerm(locs: seq<nat>, errs: seq<Sym>, b: nat, m: nat, k: nat)
    requires |locs| == |errs| && k < |locs|
    ensures Corrections(locs, errs, Exp(b + m))(k) == Weighted(WeightsOf(locs, errs, b), LocatorsOf(locs), m)(k)
  {
    hide Mul, Exp, Pow;
    var e, d := errs[k], locs[k];
    assert (b + m) * d == b * d + d * m;
    PowExp(b + m, d, (b + m) * d);
    ExpAdd(b * d, d * m);
    PowExp(d, m, d * m);
    MulAssoc(e, Exp(b * d), Exp(d * m));
  }

  /** Corrections change the syndromes by the power sums of their weights. */
  lemma CorrectedSyndrome(w: Poly, locs: seq<nat>, errs: seq<Sym>, b: nat, m: nat)
    requires |locs| == |errs| && Places(locs, |w|)
    ensures |LocatorsOf(locs)| == |WeightsOf(locs, errs, b)| == |locs|
    ensures Eval(Corrected(w, locs, errs), Exp(b + m))
         == Add(Eval(w, Exp(b + m)), PowerSum(WeightsOf(locs, errs, b), LocatorsOf(locs), m))
  {
    hide Add, Mul, Eval, Exp, Corrections, Weighted;
    EvalCorrected(w, locs, errs, Exp(b + m));
    var f, g := Corrections(locs, errs, Exp(b + m)), Weighted(WeightsOf(locs, errs, b), LocatorsOf(locs), m);
    forall k: nat | k < |locs| ensures f(k) == g(k) {
      CorrectionTerm(locs, errs, b, m, k);
    }
    SumSame(|locs|, f, g);
  }

  lemma LocatorsDistinct(locs: seq<nat>)
    requires Places(locs, NN)
    ensures Distinct(LocatorsOf(locs))
  {
    hide Exp;
    forall i, j | 0 <= i < j < |locs| ensures Exp(locs[i]) != Exp(locs[j]) {
      if Exp(locs[i]) == Exp(locs[j]) {
        ExpInjective(locs[i], locs[j]);
      }
    }
  }

  lemma WeightsNonzero(locs: seq<nat>, errs: seq<Sym>, b: nat)
    requires |locs| == |errs| && forall i :: 0 <= i < |errs| ==> errs[i] != 0
    ensures forall i :: 0 <= i < |locs| ==> WeightsOf(locs, errs, b)[i] != 0
  {
    hide Exp, Mul;
    forall i | 0 <= i < |locs| ensures WeightsOf(locs, errs, b)[i] != 0 {
      ExpNonzero(b * locs[i]);
      NoZeroDivisors(errs[i], Exp(b * locs[i]));
    }
  }

  // ----- distance

  /** The places below n where a and b differ, in increasing order. */
  ghost function Diff(a: Poly, b: Poly, n: nat): (d: seq<nat>)
    requires n <= |a| == |b|
    ensures Places(d, n)
  {
    if n == 0 then []
    else if a[n - 1] == b[n - 1] then Diff(a, b, n - 1)
    else Diff(a, b, n - 1) + [n - 1]
  }

  /** Diff lists exactly the places of difference. */
  lemma {:induction false} DiffExact(a: Poly, b: Poly, n: nat, i: nat)
    requires i < n <= |a| == |b|
    ensures i in Diff(a, b, n) <==> a[i] != b[i]
  {
    if i < n - 1 {
      DiffExact(a, b, n - 1, i);
    }
  }

  /** The Hamming distance. */
  ghost function Distance(a: Poly, b: Poly): nat
    requires |a| == |b|
  {
    |Diff(a, b, |a|)|
  }

  /** Both are words and they differ in at most t places. */
  ghost predicate Near(a: Poly, b: Poly, t: int) {
    IsWord(a) && IsWord(b) && Distance(a, b) <= t
  }

  ghost function DiffValues(a: Poly, b: Poly, n: nat): (v: seq<Sym>)
    requires n <= |a| == |b|
    ensures |v| == |Diff(a, b, n)|
    ensures forall i :: 0 <= i < |v| ==> v[i] != 0
  {
    hide Add;
    if n == 0 then []
    else if a[n - 1] == b[n - 1] then DiffValues(a, b, n - 1)
    else
      AddCancel(a[n - 1], b[n - 1]);
      DiffValues(a, b, n - 1) + [Add(a[n - 1], b[n - 1])]
  }

  lemma CorrectedSnoc(w: Poly, locs: seq<nat>, errs: seq<Sym>, k: nat, e: Sym)
    requires |locs| == |errs| && Places(locs + [k], |w|)
    ensures k < |w| && Places(locs, |w|)
    ensures Corrected(w, locs + [k], errs + [e])
         == Corrected(w, locs, errs)[k := Add(Corrected(w, locs, errs)[k], e)]
  {
    hide Add;
    var locs', errs' := locs + [k], errs + [e];
    assert locs'[|locs|] == k;
    assert forall i :: 0 <= i < |locs| ==> locs'[i] == locs[i];
    assert locs'[..|locs|] == locs && errs'[..|locs|] == errs;
  }

  lemma SpliceNext(a: Poly, b: Poly, n: nat)
    requires 0 < n <= |a| == |b|
    ensures (b[..n - 1] + a[n - 1..])[n - 1] == a[n - 1]
    ensures (b[..n - 1] + a[n - 1..])[n - 1 := b[n - 1]] == b[..n] + a[n..]
    ensures a[n - 1] == b[n - 1] ==> b[..n - 1] + a[n - 1..] == b[..n] + a[n..]
  {}

  lemma CorrectedNowhere(w: Poly)
    ensures Corrected(w, [], []) == w
  {}

  lemma DiffNext(a: Poly, b: Poly, n: nat)
    requires 0 < n <= |a| == |b|
    ensures a[n - 1] == b[n - 1] ==>
              Diff(a, b, n) == Diff(a, b, n - 1) && DiffValues(a, b, n) == DiffValues(a, b, n - 1)
    ensures a[n - 1] != b[n - 1] ==>
              && Diff(a, b, n) == Diff(a, b, n - 1) + [n - 1]
              && DiffValues(a, b, n) == DiffValues(a, b, n - 1) + [Add(a[n - 1], b[n - 1])]
              && Places(Diff(a, b, n - 1) + [n - 1], |a|)
  {
    hide Add;
  }

  lemma DiffNone(a: Poly, b: Poly)
    requires |a| == |b|
    ensures Diff(a, b, 0) == [] && DiffValues(a, b, 0) == []
  {}

  lemma DiffPlaces(a: Poly, b: Poly, n: nat)
    requires n <= |a| == |b|
    ensures Places(Diff(a, b, n), |a|)
  {
    hide Diff;
  }

  /** Two words differ by the correction at the places where they differ. */
  lemma {:induction false} DiffCorrects(a: Poly, b: Poly, n: nat)
    requires n <= |a| == |b|
    ensures Places(Diff(a, b, n), |a|)
    ensures Corrected(a, Diff(a, b, n), DiffValues(a, b, n)) == b[..n] + a[n..]
  {
    hide Add, Corrected, Places, Diff, DiffValues;
    DiffPlaces(a, b, n);
    if n == 0 {
      DiffNone(a, b);
      CorrectedNowhere(a);
    } else {
      DiffPlaces(a, b, n - 1);
      DiffCorrects(a, b, n - 1);
      SpliceNext(a, b, n);
      DiffNext(a, b, n);
      if a[n - 1] != b[n - 1] {
        CorrectedSnoc(a, Diff(a, b, n - 1), DiffValues(a, b, n - 1), n - 1, Add(a[n - 1], b[n - 1]));
        AddComm(a[n - 1], Add(a[n - 1], b[n - 1]));
        AddComm(a[n - 1], b[n - 1]);
        AddCancel(b[n - 1], a[n - 1]);
      }
    }
  }

  lemma {:induction false} DiffSymmetric(a: Poly, b: Poly, n: nat)
    requires n <= |a| == |b|
    ensures Diff(a, b, n) == Diff(b, a, n)
  {
    if n > 0 {
      DiffSymmetric(a, b, n - 1);
    }
  }

  lemma {:induction false} DiffTriangle(a: Poly, b: Poly, c: Poly, n: nat)
    requires n <= |a| == |b| == |c|
    ensures |Diff(a, c, n)| <= |Diff(a, b, n)| + |Diff(b, c, n)|
  {
    hide Places;
    if n > 0 {
      DiffTriangle(a, b, c, n - 1);
    }
  }

  lemma {:induction false} DiffUpdate(a: Poly, b: Poly, k: nat, v: Sym, n: nat)
    requires n <= |a| == |b| && k < |a|
    ensures |Diff(a[k := v], b, n)| <= |Diff(a, b, n)| + (if k < n then 1 else 0)
  {
    hide Places;
    if n > 0 {
      DiffUpdate(a, b, k, v, n - 1);
    }
  }

  lemma {:induction false} CorrectedDistance(w: Poly, locs: seq<nat>, errs: seq<Sym>)
    requires |locs| == |errs| && Places(locs, |w|)
    ensures Distance(Corrected(w, locs, errs), w) <= |locs|
    decreases |locs|
  {
    hide Add;
    if |locs| == 0 {
      DiffSelf(w, |w|);
    } else {
      var n := |locs| - 1;
      CorrectedDistance(w, locs[..n], errs[..n]);
      var v := Corrected(w, locs[..n], errs[..n]);
      DiffUpdate(v, w, locs[n], Add(v[locs[n]], errs[n]), |w|);
    }
  }

  lemma {:induction false} DiffSelf(w: Poly, n: nat)
    requires n <= |w|
    ensures Diff(w, w, n) == []
  {
    if n > 0 {
      DiffSelf(w, n - 1);
    }
  }

  // ----- error patterns

  /** The syndromes of w are the power sums of its difference from any codeword. */
  lemma SyndromesOfErrors(w: Poly, c: Poly, b: nat, n: nat)
    requires IsWord(w) && IsCodeword(c, b, n)
    ensures var locs, errs := Diff(w, c, NN), DiffValues(w, c, NN);
            SyndromeSeq(w, b, n) == Syndromes(WeightsOf(locs, errs, b), LocatorsOf(locs), n)
  {
    hide Add, Mul, Eval, Exp, PowerSum, Corrected, Diff, DiffValues, WeightsOf, LocatorsOf;
    var locs, errs := Diff(w, c, NN), DiffValues(w, c, NN);
    DiffCorrects(w, c, NN);
    assert Corrected(w, locs, errs) == c;
    var s, t := SyndromeSeq(w, b, n), Syndromes(WeightsOf(locs, errs, b), LocatorsOf(locs), n);
    forall j: nat | 1 <= j <= n ensures s[j] == t[j] {
      CorrectedSyndrome(w, locs, errs, b, j - 1);
      assert Syndrome(c, b, j) == 0;
      AddCancel(s[j], t[j]);
    }
  }

  /** Nonzero weights on distinct locators show in one of the first power sums. */
  lemma SomePowerSum(ws: seq<Sym>, ys: seq<Sym>)
    requires 0 < |ws| == |ys| && Distinct(ys) && ws[0] != 0
    ensures exists m: nat :: m < |ys| && PowerSum(ws, ys, m) != 0
  {
    hide PowerSum;
    if forall m: nat :: m < |ys| ==> PowerSum(ws, ys, m) == 0 {
      VanishingPowerSums(ws, ys);
    }
  }

  lemma PowerSumIsSyndrome(w: Poly, c: Poly, b: nat, n: nat, m: nat)
    requires IsWord(w) && IsCodeword(c, b, n) && m < n
    ensures var locs, errs := Diff(w, c, NN), DiffValues(w, c, NN);
            PowerSum(WeightsOf(locs, errs, b), LocatorsOf(locs), m) == Syndrome(w, b, m + 1)
  {
    hide Add, Mul, Eval, Exp, PowerSum, Corrected, Diff, DiffValues, WeightsOf, LocatorsOf, Syndrome;
    SyndromesOfErrors(w, c, b, n);
    assert SyndromeSeq(w, b, n)[m + 1] == Syndrome(w, b, m + 1);
  }

  /** Distinct codewords differ in more than n places. */
  lemma MinimumDistance(a: Poly, c: Poly, b: nat, n: nat)
    requires IsCodeword(a, b, n) && IsCodeword(c, b, n) && a != c
    ensures Distance(a, c) > n
  {
    hide Add, Mul, Eval, Exp, PowerSum, Corrected, Diff, DiffValues, WeightsOf, LocatorsOf, Syndrome;
    var locs, errs := Diff(a, c, NN), DiffValues(a, c, NN);
    DiffCorrects(a, c, NN);
    if |locs| == 0 {
      CorrectedNowhere(a);
      assert false;
    } else {
      var ws, ys := WeightsOf(locs, errs, b), LocatorsOf(locs);
      PatternShape(locs, errs, b);
      SomePowerSum(ws, ys);
      var m: nat :| m < |ys| && PowerSum(ws, ys, m) != 0;
      if m < n {
        PowerSumIsSyndrome(a, c, b, n, m);
      }
    }
  }

  lemma PatternShape(locs: seq<nat>, errs: seq<Sym>, b: nat)
    requires |locs| == |errs| && Places(locs, NN) && forall i :: 0 <= i < |errs| ==> errs[i] != 0
    ensures |LocatorsOf(locs)| == |WeightsOf(locs, errs, b)| == |locs|
    ensures Distinct(LocatorsOf(locs))
    ensures forall i :: 0 <= i < |locs| ==> WeightsOf(locs, errs, b)[i] != 0
  {
    LocatorsDistinct(locs);
    WeightsNonzero(locs, errs, b);
  }
}
