/** Powers and finite sums over the field. */
module Sums {
  import opened BitMultiplier
  import opened GF256

  ghost function Pow(x: Sym, n: nat): Sym {
    if n == 0 then 1 else Mul(x, Pow(x, n - 1))
  }

  /** f(0) + ... + f(n-1) */
  ghost function Sum(n: nat, f: nat -> Sym): Sym {
    if n == 0 then 0 else Add(Sum(n - 1, f), f(n - 1))
  }

  // ----- small consequences of the field laws

  lemma MulOne(a: Sym)
    ensures Mul(a, 1) == a && Mul(1, a) == a && Mul(0, a) == 0 && Mul(a, 0) == 0
  {
    hide *;
    MulUnits(a);
    MulComm(a, 1);
  }

  lemma MulCancel(a: Sym, b: Sym, c: Sym)
    requires a != 0 && Mul(a, b) == Mul(a, c)
    ensures b == c
  {
    hide *;
    ExpCancel(Log(a), b, c);
  }

  /** The outer factors of three change places. */
  lemma MulSwap(a: Sym, b: Sym, c: Sym)
    ensures Mul(a, Mul(b, c)) == Mul(b, Mul(a, c))
  {
    hide *;
    MulAssoc(a, b, c);
    MulComm(a, b);
    MulAssoc(b, a, c);
  }

  lemma DistributeRight(a: Sym, b: Sym, c: Sym)
    ensures Mul(Add(a, b), c) == Add(Mul(a, c), Mul(b, c))
  {
    hide *;
    MulComm(Add(a, b), c);
    Distribute(c, a, b);
    MulComm(a, c);
    MulComm(b, c);
  }

  // ----- powers

  lemma {:induction false} PowAdd(x: Sym, m: nat, n: nat)
    ensures Mul(Pow(x, m), Pow(x, n)) == Pow(x, m + n)
  {
    hide Mul;
    MulOne(Pow(x, n));
    if m > 0 {
      PowAdd(x, m - 1, n);
      MulAssoc(x, Pow(x, m - 1), Pow(x, n));
    }
  }

  lemma {:induction false} PowNonzero(x: Sym, n: nat)
    requires x != 0
    ensures Pow(x, n) != 0
  {
    hide Mul;
    if n > 0 {
      PowNonzero(x, n - 1);
      NoZeroDivisors(x, Pow(x, n - 1));
    }
  }

  lemma {:induction false} PowExp(k: nat, n: nat, m: nat)
    requires m == k * n
    ensures Pow(Exp(k), n) == Exp(m)
  {
    hide Mul, Exp;
    ExpStep(0);
    if n > 0 {
      assert m == k + k * (n - 1);
      PowExp(k, n - 1, k * (n - 1));
      ExpAdd(k, k * (n - 1));
    }
  }

  // ----- sums

  lemma {:induction false} SumSame(n: nat, f: nat -> Sym, g: nat -> Sym)
    requires forall i: nat :: i < n ==> f(i) == g(i)
    ensures Sum(n, f) == Sum(n, g)
  {
    hide Add;
    if n > 0 {
      SumSame(n - 1, f, g);
    }
  }

  lemma {:induction false} SumNone(n: nat, f: nat -> Sym)
    requires forall i: nat :: i < n ==> f(i) == 0
    ensures Sum(n, f) == 0
  {
    hide Add;
    if n > 0 {
      SumNone(n - 1, f);
      AddZero(0);
    }
  }

  /** Terms that vanish beyond m do not count. */
  lemma {:induction false} SumTrim(m: nat, n: nat, f: nat -> Sym)
    requires m <= n && forall i: nat :: m <= i < n ==> f(i) == 0
    ensures Sum(n, f) == Sum(m, f)
  {
    hide Add;
    if m < n {
      SumTrim(m, n - 1, f);
      AddZero(Sum(m, f));
    }
  }

  lemma {:induction false} SumOne(n: nat, k: nat, f: nat -> Sym)
    requires k < n && forall i: nat :: i < n && i != k ==> f(i) == 0
    ensures Sum(n, f) == f(k)
  {
    hide Add;
    SumNone(k, f);
    SumTrim(k + 1, n, f);
    AddZero(f(k));
  }

  lemma {:induction false} SumPlus(n: nat, f: nat -> Sym, g: nat -> Sym, h: nat -> Sym)
    requires forall i: nat :: i < n ==> h(i) == Add(f(i), g(i))
    ensures Sum(n, h) == Add(Sum(n, f), Sum(n, g))
  {
    hide Add;
    if n == 0 {
      AddZero(0);
    } else {
      SumPlus(n - 1, f, g, h);
      AddSwap(Sum(n - 1, f), Sum(n - 1, g), f(n - 1), g(n - 1));
    }
  }

  lemma {:induction false} SumTimes(n: nat, c: Sym, f: nat -> Sym, h: nat -> Sym)
    requires forall i: nat :: i < n ==> h(i) == Mul(c, f(i))
    ensures Sum(n, h) == Mul(c, Sum(n, f))
  {
    hide Add, Mul;
    if n == 0 {
      MulOne(c);
    } else {
      SumTimes(n - 1, c, f, h);
      Distribute(c, Sum(n - 1, f), f(n - 1));
    }
  }

  /** The first k terms and the rest, shifted down to start at index 0. */
  lemma {:induction false} SumSplit(k: nat, n: nat, f: nat -> Sym, g: nat -> Sym)
    requires forall i: nat :: i < n ==> g(i) == f(k + i)
    ensures Sum(k + n, f) == Add(Sum(k, f), Sum(n, g))
  {
    hide Add;
    if n == 0 {
      AddZero(Sum(k, f));
    } else {
      SumSplit(k, n - 1, f, g);
      assert g(n - 1) == f(k + n - 1);
      AddAssoc(Sum(k, f), Sum(n - 1, g), g(n - 1));
    }
  }

  /** A sum may be taken from the other end. */
  lemma {:induction false} SumReverse(n: nat, f: nat -> Sym, g: nat -> Sym)
    requires forall i: nat :: i < n ==> g(i) == f(n - 1 - i)
    ensures Sum(n, g) == Sum(n, f)
  {
    hide Add;
    if n > 0 {
      var h := (i: nat) => f(1 + i);
      SumSplit(1, n - 1, f, h);
      forall i: nat | i < n - 1 ensures g(i) == h(n - 2 - i) {
        assert n - 1 - i == 1 + (n - 2 - i);
      }
      SumReverse(n - 1, h, g);
      AddZero(f(0));
      AddComm(f(0), Sum(n - 1, h));
      assert Sum(1, f) == Add(Sum(0, f), f(0));
    }
  }

  ghost function Row(f: (nat, nat) -> Sym, i: nat): nat -> Sym {
    (j: nat) => f(i, j)
  }

  ghost function Column(f: (nat, nat) -> Sym, j: nat): nat -> Sym {
    (i: nat) => f(i, j)
  }

  /** The inner sums of a double sum, one for each value of the first index. */
  ghost function Rows(n: nat, f: (nat, nat) -> Sym): nat -> Sym {
    (i: nat) => Sum(n, Row(f, i))
  }

  /** The inner sums of a double sum, one for each value of the second index. */
  ghost function Columns(m: nat, f: (nat, nat) -> Sym): nat -> Sym {
    (j: nat) => Sum(m, Column(f, j))
  }

  lemma {:induction false} SumExchange(m: nat, n: nat, f: (nat, nat) -> Sym)
    ensures Sum(m, Rows(n, f)) == Sum(n, Columns(m, f))
  {
    hide Add;
    if m == 0 {
      SumNone(n, Columns(0, f));
    } else {
      SumExchange(m - 1, n, f);
      SumPlus(n, Columns(m - 1, f), Row(f, m - 1), Columns(m, f));
    }
  }
}
