/** Linear recurrences for a sequence s[1], s[2], ..., and the table that Berlekamp's iteration builds. */
module Berlekamp {
  import opened BitMultiplier
  import opened GF256
  import opened Sums
  import opened Polynomials
  import opened PowerSums

  /** p has constant term 1 and its recurrence, of length |p|-1, holds up to place m. */
  ghost predicate Generates(p: Poly, s: Poly, m: int) {
    && |p| > 0 && p[0] == 1
    && forall j :: |p| <= j <= m ==> Conv(p, s, j) == 0
  }

  /** No recurrence of length below n-1 generates s up to place m. */
  ghost predicate Minimal(s: Poly, m: int, n: int) {
    forall g: Poly :: Generates(g, s, m) ==> |g| >= n
  }

  // ----- the length lemma

  ghost function CrossTerms(p: Poly, q: Poly, s: Poly, u: int): (nat, nat) -> Sym {
    (k: nat, i: nat) => Mul(At(q, k), Products(p, s, u - k)(i))
  }

  lemma CrossRowTerm(p: Poly, q: Poly, s: Poly, u: int, k: nat, i: nat)
    ensures Row(CrossTerms(p, q, s, u), k)(i) == Mul(At(q, k), Products(p, s, u - k)(i))
  {
    hide Mul, At, Products;
  }

  lemma CrossRow(p: Poly, q: Poly, s: Poly, u: int, k: nat)
    ensures Rows(|p|, CrossTerms(p, q, s, u))(k) == Mul(At(q, k), Conv(p, s, u - k))
  {
    hide Add, Mul, Sum, At, Products, CrossTerms, Row;
    var f := CrossTerms(p, q, s, u);
    forall i: nat | i < |p| ensures Row(f, k)(i) == Mul(At(q, k), Products(p, s, u - k)(i)) {
      CrossRowTerm(p, q, s, u, k, i);
    }
    SumTimes(|p|, At(q, k), Products(p, s, u - k), Row(f, k));
  }

  lemma CrossAt(p: Poly, q: Poly, s: Poly, u: int, k: nat, i: nat)
    ensures CrossTerms(p, q, s, u)(k, i) == Mul(At(q, k), Mul(At(p, i), At(s, u - k - i)))
  {
    hide Mul, At, Products;
    ProductsAt(p, s, u - k, i);
  }

  lemma CrossSwap(p: Poly, q: Poly, s: Poly, u: int, k: nat, i: nat)
    ensures CrossTerms(p, q, s, u)(k, i) == CrossTerms(q, p, s, u)(i, k)
  {
    hide *;
    CrossAt(p, q, s, u, k, i);
    CrossAt(q, p, s, u, i, k);
    assert u - k - i == u - i - k;
    MulSwap(At(q, k), At(p, i), At(s, u - k - i));
  }

  lemma CrossColumn(p: Poly, q: Poly, s: Poly, u: int, i: nat)
    ensures Columns(|q|, CrossTerms(p, q, s, u))(i) == Mul(At(p, i), Conv(q, s, u - i))
  {
    hide Add, Mul, Sum, At, CrossTerms;
    CrossRow(q, p, s, u, i);
    var f, g := Column(CrossTerms(p, q, s, u), i), Row(CrossTerms(q, p, s, u), i);
    forall k: nat | k < |q| ensures f(k) == g(k) {
      CrossSwap(p, q, s, u, k, i);
    }
    SumSame(|q|, f, g);
  }

  /** If p first fails at place u, every recurrence that holds up to u is long: lengths add up to at least u. */
  lemma LengthBound(p: Poly, q: Poly, s: Poly, u: int)
    requires Generates(p, s, u - 1) && |p| <= u && Conv(p, s, u) != 0
    requires Generates(q, s, u)
    ensures |p| + |q| >= u + 2
  {
    hide Add, Mul, Sum, Conv, CrossTerms, Rows, Columns;
    if |p| + |q| <= u + 1 {
      var f := CrossTerms(p, q, s, u);
      var rows, columns := Rows(|p|, f), Columns(|q|, f);
      forall k: nat | k < |q| ensures rows(k) == if k == 0 then Conv(p, s, u) else 0 {
        CrossRow(p, q, s, u, k);
        MulOne(At(q, k));
        MulOne(Conv(p, s, u));
      }
      SumOne(|q|, 0, rows);
      forall i: nat | i < |p| ensures columns(i) == 0 {
        CrossColumn(p, q, s, u, i);
        MulOne(At(p, i));
      }
      SumNone(|p|, columns);
      SumExchange(|q|, |p|, f);
      assert false;
    }
  }

  // ----- the new row of the table

  ghost function CombineAt(p: Poly, q: Poly, c: Sym, k: nat, i: int): Sym {
    Add(At(p, i), Mul(c, At(q, i - k)))
  }

  /** The polynomial p + c * X^k * q with n coefficients. */
  ghost function Combine(p: Poly, q: Poly, c: Sym, k: nat, n: nat): Poly {
    seq(n, i => CombineAt(p, q, c, k, i))
  }

  ghost function RaisedProducts(q: Poly, s: Poly, k: nat, j: int): nat -> Sym {
    (i: nat) => Mul(At(q, i - k), At(s, j - i))
  }

  lemma SumRaisedProducts(q: Poly, s: Poly, k: nat, j: int, n: nat)
    requires |q| + k <= n
    ensures Sum(n, RaisedProducts(q, s, k, j)) == Conv(q, s, j - k)
  {
    hide Add, Mul, Sum, At;
    var f, g := RaisedProducts(q, s, k, j), Products(q, s, j - k);
    forall i: nat | i < k ensures f(i) == 0 {
      AtOutside(q, i - k);
      MulOne(At(s, j - i));
    }
    SumNone(k, f);
    forall i: nat | i < n - k ensures g(i) == f(k + i) {
      RaisedProductsTerm(q, s, k, j, i);
    }
    SumSplit(k, n - k, f, g);
    forall i: nat | |q| <= i < n - k ensures g(i) == 0 {
      AtOutside(q, i);
      MulOne(At(s, j - k - i));
    }
    SumTrim(|q|, n - k, g);
    AddZero(Conv(q, s, j - k));
  }

  lemma RaisedProductsTerm(q: Poly, s: Poly, k: nat, j: int, i: nat)
    ensures Products(q, s, j - k)(i) == RaisedProducts(q, s, k, j)(k + i)
  {
    hide Mul, At, Products;
    ProductsAt(q, s, j - k, i);
    assert j - k - i == j - (k + i);
  }

  lemma CombineTerm(p: Poly, q: Poly, s: Poly, c: Sym, k: nat, n: nat, j: int, i: nat)
    requires i < n
    ensures Products(Combine(p, q, c, k, n), s, j)(i)
         == Add(Products(p, s, j)(i), Mul(c, RaisedProducts(q, s, k, j)(i)))
  {
    hide Add, Mul, At;
    assert At(Combine(p, q, c, k, n), i) == CombineAt(p, q, c, k, i) by {
      AtCombine(p, q, c, k, n, i);
    }
    DistributeRight(At(p, i), Mul(c, At(q, i - k)), At(s, j - i));
    MulAssoc(c, At(q, i - k), At(s, j - i));
  }

  lemma AtCombine(p: Poly, q: Poly, c: Sym, k: nat, n: nat, i: nat)
    requires i < n
    ensures |Combine(p, q, c, k, n)| == n
    ensures At(Combine(p, q, c, k, n), i) == CombineAt(p, q, c, k, i)
  {
    hide CombineAt;
  }

  lemma ConvCombine(p: Poly, q: Poly, s: Poly, c: Sym, k: nat, n: nat, j: int)
    requires |p| <= n && |q| + k <= n && n > 0
    ensures Conv(Combine(p, q, c, k, n), s, j) == Add(Conv(p, s, j), Mul(c, Conv(q, s, j - k)))
  {
    hide Add, Mul, Sum, Combine, At, Products, RaisedProducts;
    AtCombine(p, q, c, k, n, 0);
    var f, g, h := Products(p, s, j), RaisedProducts(q, s, k, j), Products(Combine(p, q, c, k, n), s, j);
    var cg := (i: nat) => Mul(c, g(i));
    forall i: nat | i < n ensures h(i) == Add(f(i), cg(i)) {
      CombineTerm(p, q, s, c, k, n, j, i);
    }
    SumPlus(n, f, cg, h);
    SumTimes(n, c, g, cg);
    forall i: nat | |p| <= i < n ensures f(i) == 0 {
      ProductsEnd(p, s, j, i);
    }
    SumTrim(|p|, n, f);
    SumRaisedProducts(q, s, k, j, n);
  }

  lemma ProductsEnd(p: Poly, s: Poly, j: int, i: nat)
    requires i >= |p|
    ensures Products(p, s, j)(i) == 0
  {
    hide Mul;
    MulOne(At(s, j - i));
  }

  // ----- the table

  /** The first sum that the recurrence of row j misses; row 0 stands for a discrepancy of 1. */
  ghost function Discrepancy(rows: seq<Poly>, s: Poly, j: nat): Sym
    requires j < |rows|
  {
    if j == 0 then 1 else Conv(rows[j], s, j)
  }

  /** How far row q lets a later row be lengthened: its place less the length of its recurrence. */
  ghost function Gap(rows: seq<Poly>, q: nat): int
    requires q < |rows|
  {
    q - (|rows[q]| - 1)
  }

  /** q is an earlier row with a nonzero discrepancy, of greatest gap. */
  ghost predicate Best(rows: seq<Poly>, s: Poly, u: nat, q: nat)
    requires u <= |rows|
  {
    && q < u && Discrepancy(rows, s, q) != 0
    && forall j :: 0 <= j < u && Discrepancy(rows, s, j) != 0 ==> Gap(rows, j) <= Gap(rows, q)
  }

  ghost predicate RowOk(p: Poly, s: Poly, j: nat) {
    |p| <= j && Generates(p, s, j - 1) && Minimal(s, j - 1, |p|)
  }

  /** Rows 1, 2, ... generate ever longer prefixes of s with as short a recurrence as there is. */
  ghost predicate Table(rows: seq<Poly>, s: Poly) {
    && |rows| > 1 && rows[0] == [1]
    && (forall j :: 1 <= j < |rows| ==> RowOk(rows[j], s, j))
    && (exists q :: Best(rows, s, |rows| - 1, q) && Gap(rows, q) == |rows[|rows| - 1]| - 1)
  }

  lemma TableStart(s: Poly)
    ensures Table([[1], [1]], s)
  {
    hide Add, Mul, Conv;
    var rows: seq<Poly> := [[1], [1]];
    assert Best(rows, s, 1, 0);
    assert Gap(rows, 0) == |rows[1]| - 1;
  }

  /** Any best row has a gap equal to the current length. */
  lemma BestGap(rows: seq<Poly>, s: Poly, q: nat)
    requires Table(rows, s) && Best(rows, s, |rows| - 1, q)
    ensures Gap(rows, q) == |rows[|rows| - 1]| - 1
  {
    hide Conv, RowOk, Discrepancy;
  }

  lemma BestExtends(rows: seq<Poly>, p: Poly, s: Poly, q: nat)
    requires |rows| > 1 && Best(rows, s, |rows| - 1, q)
    requires Discrepancy(rows, s, |rows| - 1) == 0 || Gap(rows, |rows| - 1) <= Gap(rows, q)
    ensures Best(rows + [p], s, |rows|, q)
  {
    hide Discrepancy, Gap;
    SameEntries(rows, p, s);
  }

  lemma BestReplaced(rows: seq<Poly>, p: Poly, s: Poly, q: nat)
    requires |rows| > 1 && Best(rows, s, |rows| - 1, q)
    requires Discrepancy(rows, s, |rows| - 1) != 0 && Gap(rows, |rows| - 1) >= Gap(rows, q)
    ensures Best(rows + [p], s, |rows|, |rows| - 1)
  {
    hide Discrepancy, Gap;
    SameEntries(rows, p, s);
  }

  lemma SameEntries(rows: seq<Poly>, p: Poly, s: Poly)
    ensures forall j :: 0 <= j < |rows| ==> Discrepancy(rows + [p], s, j) == Discrepancy(rows, s, j)
    ensures forall j :: 0 <= j < |rows| ==> Gap(rows + [p], j) == Gap(rows, j)
  {
    hide Conv;
  }

  lemma StepZero(rows: seq<Poly>, s: Poly)
    requires Table(rows, s) && Discrepancy(rows, s, |rows| - 1) == 0
    ensures Table(rows + [rows[|rows| - 1]], s)
  {
    hide Conv, Minimal;
    var u := |rows| - 1;
    var p := rows[u];
    var next := rows + [p];
    assert RowOk(p, s, u);
    assert RowOk(p, s, u + 1) by {
      MinimalExtends(p, s, u, |p|);
    }
    var q :| Best(rows, s, u, q) && Gap(rows, q) == |p| - 1;
    BestExtends(rows, p, s, q);
    assert Gap(next, q) == |next[u + 1]| - 1;
  }

  lemma MinimalExtends(p: Poly, s: Poly, u: int, n: int)
    requires Minimal(s, u - 1, n)
    ensures Minimal(s, u, n)
  {
    hide Conv;
    forall g: Poly | Generates(g, s, u) ensures |g| >= n {
      assert Generates(g, s, u - 1);
    }
  }

  ghost function Max(a: int, b: int): int {
    if a > b then a else b
  }

  lemma StepNonzero(rows: seq<Poly>, s: Poly, q: nat, c: Sym, n: nat)
    requires Table(rows, s) && Discrepancy(rows, s, |rows| - 1) != 0
    requires Best(rows, s, |rows| - 1, q)
    requires Mul(c, Discrepancy(rows, s, q)) == Discrepancy(rows, s, |rows| - 1)
    requires n == Max(|rows[|rows| - 1]|, |rows[q]| + |rows| - 1 - q)
    ensures Table(rows + [Combine(rows[|rows| - 1], rows[q], c, |rows| - 1 - q, n)], s)
    ensures n - 1 == Max(|rows[|rows| - 1]| - 1, |rows| - 1 - (|rows[|rows| - 1]| - 1))
  {
    hide Conv, Best, Minimal, Add, Mul, Combine, CombineAt;
    var u := |rows| - 1;
    BestGap(rows, s, q);
    BestBelow(rows, s, q);
    var p := rows[u];
    var p' := Combine(p, rows[q], c, u - q, n);
    var next := rows + [p'];
    assert RowOk(p, s, u);
    NewRowGenerates(rows, s, q, c, n);
    NewRowMinimal(p, s, u);
    AtCombine(p, rows[q], c, u - q, n, 0);
    assert RowOk(p', s, u + 1);
    if Gap(rows, u) <= Gap(rows, q) {
      BestExtends(rows, p', s, q);
      assert Gap(next, q) == |next[u + 1]| - 1;
    } else {
      BestReplaced(rows, p', s, q);
      assert Gap(next, u) == |next[u + 1]| - 1;
    }
  }

  lemma BestBelow(rows: seq<Poly>, s: Poly, q: nat)
    requires |rows| > 0 && Best(rows, s, |rows| - 1, q)
    ensures q < |rows| - 1 && Discrepancy(rows, s, q) != 0
  {
    hide Conv;
  }

  lemma NewRowGenerates(rows: seq<Poly>, s: Poly, q: nat, c: Sym, n: nat)
    requires Table(rows, s) && q < |rows| - 1
    requires Mul(c, Discrepancy(rows, s, q)) == Discrepancy(rows, s, |rows| - 1)
    requires n == Max(|rows[|rows| - 1]|, |rows[q]| + |rows| - 1 - q)
    ensures Generates(Combine(rows[|rows| - 1], rows[q], c, |rows| - 1 - q, n), s, |rows| - 1)
  {
    hide Conv, Best, Minimal, Add, Mul, Combine, At;
    var u := |rows| - 1;
    var p, r := rows[u], rows[q];
    var p' := Combine(p, r, c, u - q, n);
    assert RowOk(p, s, u);
    AtCombine(p, r, c, u - q, n, 0);
    AtOutside(r, q - u);
    AtInside(p, 0);
    AtInside(p', 0);
    MulOne(c);
    AddZero(1);
    forall j | |p'| <= j <= u ensures Conv(p', s, j) == 0 {
      ConvCombine(p, r, s, c, u - q, n, j);
      if q > 0 {
        assert RowOk(r, s, q);
      }
      if j < u {
        AddZero(0);
      } else {
        AddZero(Conv(p, s, u));
      }
    }
  }

  lemma NewRowMinimal(p: Poly, s: Poly, u: int)
    requires Generates(p, s, u - 1) && |p| <= u && Conv(p, s, u) != 0
    requires Minimal(s, u - 1, |p|)
    ensures Minimal(s, u, Max(|p|, u + 2 - |p|))
  {
    hide Conv;
    forall g: Poly | Generates(g, s, u) ensures |g| >= Max(|p|, u + 2 - |p|) {
      assert Generates(g, s, u - 1);
      LengthBound(p, g, s, u);
    }
  }
}
