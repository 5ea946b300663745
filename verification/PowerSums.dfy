/** Power sums of weighted locators: the syndromes of an error pattern. */
module PowerSums {
  import opened BitMultiplier
  import opened GF256
  import opened Sums
  import opened Polynomials

  /** The terms of ws[0]*ys[0]^m + ... + ws[n-1]*ys[n-1]^m. */
  ghost function Weighted(ws: seq<Sym>, ys: seq<Sym>, m: nat): nat -> Sym {
    (r: nat) => Mul(At(ws, r), Pow(At(ys, r), m))
  }

  ghost function PowerSum(ws: seq<Sym>, ys: seq<Sym>, m: nat): Sym {
    Sum(|ys|, Weighted(ws, ys, m))
  }

  // ----- weights whose power sums vanish

  /** The weights that remain after the last locator has been eliminated. */
  ghost function Eliminated(ws: seq<Sym>, ys: seq<Sym>): seq<Sym>
    requires |ws| == |ys| > 0
  {
    seq(|ys| - 1, (r: nat) => EliminatedAt(ws, ys, r))
  }

  ghost function EliminatedAt(ws: seq<Sym>, ys: seq<Sym>, r: nat): Sym {
    Mul(Add(At(ys, r), At(ys, |ys| - 1)), At(ws, r))
  }

  lemma EliminatedTerm(ws: seq<Sym>, ys: seq<Sym>, m: nat, r: nat)
    ensures Mul(EliminatedAt(ws, ys, r), Pow(At(ys, r), m))
         == Add(Weighted(ws, ys, m + 1)(r), Mul(At(ys, |ys| - 1), Weighted(ws, ys, m)(r)))
  {
    hide Add, Mul, At;
    var w, y, z := At(ws, r), At(ys, r), At(ys, |ys| - 1);
    MulAssoc(Add(y, z), w, Pow(y, m));
    DistributeRight(y, z, Mul(w, Pow(y, m)));
    MulSwap(y, w, Pow(y, m));
  }

  lemma EliminatedSum(ws: seq<Sym>, ys: seq<Sym>, m: nat)
    requires |ws| == |ys| > 0
    ensures PowerSum(Eliminated(ws, ys), ys[..|ys| - 1], m)
         == Add(PowerSum(ws, ys, m + 1), Mul(ys[|ys| - 1], PowerSum(ws, ys, m)))
  {
    hide Add, Mul, Pow;
    var n := |ys| - 1;
    var z := ys[n];
    var h := (r: nat) => Mul(EliminatedAt(ws, ys, r), Pow(At(ys, r), m));
    var zw := (r: nat) => Mul(z, Weighted(ws, ys, m)(r));
    forall r: nat | r < n + 1 ensures h(r) == Add(Weighted(ws, ys, m + 1)(r), zw(r)) {
      EliminatedTerm(ws, ys, m, r);
    }
    SumPlus(n + 1, Weighted(ws, ys, m + 1), zw, h);
    SumTimes(n + 1, z, Weighted(ws, ys, m), zw);
    AddCancel(z, z);
    MulOne(At(ws, n));
    MulOne(Pow(z, m));
    SumTrim(n, n + 1, h);
    SumSame(n, h, Weighted(Eliminated(ws, ys), ys[..n], m));
  }

  /** Weights on n distinct locators whose first n power sums vanish are all zero. */
  lemma {:induction false} VanishingPowerSums(ws: seq<Sym>, ys: seq<Sym>)
    requires |ws| == |ys| && Distinct(ys)
    requires forall m: nat :: m < |ys| ==> PowerSum(ws, ys, m) == 0
    ensures forall r :: 0 <= r < |ws| ==> ws[r] == 0
    decreases |ys|
  {
    hide Add, Mul, Pow, PowerSum, Eliminated;
    if |ys| > 0 {
      var n := |ys| - 1;
      var vs, xs := Eliminated(ws, ys), ys[..n];
      forall m: nat | m < n ensures PowerSum(vs, xs, m) == 0 {
        EliminatedSum(ws, ys, m);
        MulOne(ys[n]);
        AddZero(0);
      }
      EliminatedLength(ws, ys);
      VanishingPowerSums(vs, xs);
      forall r | 0 <= r < n ensures ws[r] == 0 {
        EliminatedZero(ws, ys, r);
      }
      LastWeight(ws, ys);
    }
  }

  lemma EliminatedLength(ws: seq<Sym>, ys: seq<Sym>)
    requires |ws| == |ys| > 0
    ensures |Eliminated(ws, ys)| == |ys| - 1
  {
    hide EliminatedAt;
  }

  lemma EliminatedZero(ws: seq<Sym>, ys: seq<Sym>, r: nat)
    requires |ws| == |ys| && r < |ys| - 1 && Distinct(ys)
    requires Eliminated(ws, ys)[r] == 0
    ensures ws[r] == 0
  {
    hide Add, Mul;
    NoZeroDivisors(Add(ys[r], ys[|ys| - 1]), ws[r]);
    AddCancel(ys[r], ys[|ys| - 1]);
  }

  lemma LastWeight(ws: seq<Sym>, ys: seq<Sym>)
    requires |ws| == |ys| > 0
    requires PowerSum(ws, ys, 0) == 0 && forall r :: 0 <= r < |ys| - 1 ==> ws[r] == 0
    ensures ws[|ws| - 1] == 0
  {
    hide Add, Mul;
    var n := |ys| - 1;
    MulOne(1);
    forall r: nat | r < n ensures Weighted(ws, ys, 0)(r) == 0 {
      MulOne(Pow(At(ys, r), 0));
    }
    SumOne(n + 1, n, Weighted(ws, ys, 0));
    MulOne(ws[n]);
  }

  // ----- convolution with a recurrence

  /** The terms of p[0]*s[j] + p[1]*s[j-1] + ... */
  ghost function Products(p: Poly, s: Poly, j: int): nat -> Sym {
    (i: nat) => Mul(At(p, i), At(s, j - i))
  }

  ghost function Conv(p: Poly, s: Poly, j: int): Sym {
    Sum(|p|, Products(p, s, j))
  }

  lemma ProductsAt(p: Poly, s: Poly, j: int, i: nat)
    ensures Products(p, s, j)(i) == Mul(At(p, i), At(s, j - i))
  {
    hide Mul, At;
  }

  /** The powers of y, moved up by one place: syndromes are numbered from 1. */
  ghost function Geometric(y: Sym, n: nat): Poly {
    seq(n + 1, (j: nat) => if j == 0 then 0 else Pow(y, j - 1))
  }

  lemma GeometricAt(y: Sym, n: nat, k: int)
    requires k < n
    ensures At(Geometric(y, n), k + 1) == if k == 0 then 1 else Mul(y, At(Geometric(y, n), k))
  {
    hide Mul;
    MulOne(y);
  }

  lemma GeometricZero(y: Sym, n: nat)
    ensures At(Geometric(y, n), 0) == 0
  {
    hide Mul;
  }

  lemma {:induction false} ConvGeometric(p: Poly, y: Sym, n: nat, j: nat)
    requires j <= n
    ensures Conv(p, Geometric(y, n), j) == Horner(p, y, j)
  {
    hide Add, Mul, Geometric, At, Horner;
    var g := Geometric(y, n);
    if j == 0 {
      HornerStep(p, y, 0);
      GeometricZero(y, n);
      forall i: nat | i < |p| ensures Products(p, g, 0)(i) == 0 {
        var k: int := i;
        if k > 0 {
          AtOutside(g, -k);
        }
        MulOne(At(p, i));
      }
      SumNone(|p|, Products(p, g, 0));
    } else {
      var k := j - 1;
      ConvGeometric(p, y, n, k);
      HornerStep(p, y, k);
      var a, b := (i: nat) => Mul(y, Products(p, g, k)(i)), (i: nat) => if i == k then At(p, i) else 0;
      forall i: nat | i < |p| ensures Products(p, g, j)(i) == Add(a(i), b(i)) {
        GeometricTerm(p, y, n, k, i);
      }
      SumPlus(|p|, a, b, Products(p, g, j));
      SumTimes(|p|, y, Products(p, g, k), a);
      if k < |p| {
        SumOne(|p|, k, b);
      } else {
        AtOutside(p, k);
        SumNone(|p|, b);
      }
    }
  }

  lemma GeometricTerm(p: Poly, y: Sym, n: nat, k: nat, i: nat)
    requires k < n
    ensures Products(p, Geometric(y, n), k + 1)(i)
         == Add(Mul(y, Products(p, Geometric(y, n), k)(i)), if i == k then At(p, i) else 0)
  {
    hide Add, Mul, Geometric, At;
    var g := Geometric(y, n);
    var c, d := At(p, i), At(g, k - i);
    GeometricAt(y, n, k - i);
    GeometricZero(y, n);
    MulSwap(y, c, d);
    MulOne(c);
    MulOne(y);
    AddZero(c);
    AddZero(Mul(y, Mul(c, d)));
  }

  /** Place j holds the power sum of order j-1. */
  ghost function Syndromes(ws: seq<Sym>, ys: seq<Sym>, n: nat): Poly {
    seq(n + 1, (j: nat) => if j == 0 then 0 else PowerSum(ws, ys, j - 1))
  }

  ghost function GeometricTerms(ws: seq<Sym>, ys: seq<Sym>, n: nat, k: int): nat -> Sym {
    (r: nat) => Mul(At(ws, r), At(Geometric(At(ys, r), n), k))
  }

  lemma GeometricPower(y: Sym, n: nat, k: nat)
    requires 1 <= k <= n
    ensures At(Geometric(y, n), k) == Pow(y, k - 1)
  {
    hide Mul;
  }

  lemma SyndromesPlace(ws: seq<Sym>, ys: seq<Sym>, n: nat, k: int)
    requires k <= n
    ensures At(Syndromes(ws, ys, n), k) == if k < 1 then 0 else PowerSum(ws, ys, k - 1)
  {
    hide PowerSum;
  }

  lemma SyndromesAt(ws: seq<Sym>, ys: seq<Sym>, n: nat, k: int)
    requires k <= n
    ensures At(Syndromes(ws, ys, n), k) == Sum(|ys|, GeometricTerms(ws, ys, n, k))
  {
    hide Add, Mul, Pow, Sum, Geometric, Syndromes;
    var g := GeometricTerms(ws, ys, n, k);
    SyndromesPlace(ws, ys, n, k);
    forall r: nat | r < |ys| ensures g(r) == if k < 1 then 0 else Weighted(ws, ys, k - 1)(r) {
      if k < 1 {
        GeometricZero(At(ys, r), n);
        MulOne(At(ws, r));
      } else {
        GeometricPower(At(ys, r), n, k);
      }
    }
    if k < 1 {
      SumNone(|ys|, g);
    } else {
      SumSame(|ys|, g, Weighted(ws, ys, k - 1));
    }
  }

  /** The terms of a recurrence p applied to syndromes, collected by locator. */
  ghost function Recurrences(p: Poly, ws: seq<Sym>, ys: seq<Sym>, j: nat): nat -> Sym {
    (r: nat) => Mul(At(ws, r), Horner(p, At(ys, r), j))
  }

  ghost function DoubleTerms(p: Poly, ws: seq<Sym>, ys: seq<Sym>, n: nat, j: int): (nat, nat) -> Sym {
    (i: nat, r: nat) => Mul(At(p, i), GeometricTerms(ws, ys, n, j - i)(r))
  }

  lemma RowTerm(p: Poly, ws: seq<Sym>, ys: seq<Sym>, n: nat, j: int, i: nat, r: nat)
    ensures Row(DoubleTerms(p, ws, ys, n, j), i)(r) == Mul(At(p, i), GeometricTerms(ws, ys, n, j - i)(r))
  {
    hide Mul, At, GeometricTerms;
  }

  lemma DoubleRows(p: Poly, ws: seq<Sym>, ys: seq<Sym>, n: nat, j: nat, i: nat)
    requires j <= n
    ensures Rows(|ys|, DoubleTerms(p, ws, ys, n, j))(i) == Products(p, Syndromes(ws, ys, n), j)(i)
  {
    hide Add, Mul, Sum, At, GeometricTerms, DoubleTerms, Row, Syndromes, Products;
    var f, g := DoubleTerms(p, ws, ys, n, j), GeometricTerms(ws, ys, n, j - i);
    forall r: nat | r < |ys| ensures Row(f, i)(r) == Mul(At(p, i), g(r)) {
      RowTerm(p, ws, ys, n, j, i, r);
    }
    SumTimes(|ys|, At(p, i), g, Row(f, i));
    SyndromesAt(ws, ys, n, j - i);
    ProductsAt(p, Syndromes(ws, ys, n), j, i);
  }

  lemma GeometricTermsAt(ws: seq<Sym>, ys: seq<Sym>, n: nat, k: int, r: nat)
    ensures GeometricTerms(ws, ys, n, k)(r) == Mul(At(ws, r), At(Geometric(At(ys, r), n), k))
  {
    hide Mul, At, Geometric;
  }

  lemma ColumnTerm(p: Poly, ws: seq<Sym>, ys: seq<Sym>, n: nat, j: nat, r: nat, i: nat)
    ensures Column(DoubleTerms(p, ws, ys, n, j), r)(i)
         == Mul(At(ws, r), Products(p, Geometric(At(ys, r), n), j)(i))
  {
    hide Mul, At, Geometric, GeometricTerms, DoubleTerms, Products;
    var g := Geometric(At(ys, r), n);
    RowTerm(p, ws, ys, n, j, i, r);
    GeometricTermsAt(ws, ys, n, j - i, r);
    ProductsAt(p, g, j, i);
    MulSwap(At(ws, r), At(p, i), At(g, j - i));
  }

  lemma DoubleColumns(p: Poly, ws: seq<Sym>, ys: seq<Sym>, n: nat, j: nat, r: nat)
    requires j <= n
    ensures Columns(|p|, DoubleTerms(p, ws, ys, n, j))(r) == Recurrences(p, ws, ys, j)(r)
  {
    hide Add, Mul, Sum, At, Geometric, DoubleTerms, Column, Products, Horner;
    var h, g := Column(DoubleTerms(p, ws, ys, n, j), r), Products(p, Geometric(At(ys, r), n), j);
    forall i: nat | i < |p| ensures h(i) == Mul(At(ws, r), g(i)) {
      ColumnTerm(p, ws, ys, n, j, r, i);
    }
    SumTimes(|p|, At(ws, r), g, h);
    ConvGeometric(p, At(ys, r), n, j);
  }

  /** A recurrence applied to syndromes is a power sum weighted by the recurrence at each locator. */
  lemma ConvSyndromes(p: Poly, ws: seq<Sym>, ys: seq<Sym>, n: nat, j: nat)
    requires j <= n
    ensures Conv(p, Syndromes(ws, ys, n), j) == Sum(|ys|, Recurrences(p, ws, ys, j))
  {
    hide Add, Mul, Sum, At, DoubleTerms, Rows, Columns, Products, Recurrences, Syndromes;
    var f := DoubleTerms(p, ws, ys, n, j);
    forall i: nat | i < |p| ensures Rows(|ys|, f)(i) == Products(p, Syndromes(ws, ys, n), j)(i) {
      DoubleRows(p, ws, ys, n, j, i);
    }
    SumSame(|p|, Rows(|ys|, f), Products(p, Syndromes(ws, ys, n), j));
    SumExchange(|p|, |ys|, f);
    forall r: nat | r < |ys| ensures Columns(|p|, f)(r) == Recurrences(p, ws, ys, j)(r) {
      DoubleColumns(p, ws, ys, n, j, r);
    }
    SumSame(|ys|, Columns(|p|, f), Recurrences(p, ws, ys, j));
  }
}
