/** The antilog and log tables of the field. */
module Tables {
  import opened BitMultiplier
  import opened GF256

  const MM := 8

  /** The primitive polynomial 1 + X^2 + X^3 + X^4 + X^8, constant term first. */
  const PP: seq<int> := [1, 0, 1, 1, 1, 0, 0, 0, 1]

  /** The index form of a symbol: the exponent of the primitive element, or -1 for zero. */
  ghost function Idx(a: Sym): int {
    if a == 0 then -1 else Log(a)
  }

  /** alphaTo holds the powers of the primitive element and indexOf the index form of every symbol. */
  ghost predicate Ready(alphaTo: array<int>, indexOf: array<int>)
    reads alphaTo, indexOf
  {
    && alphaTo.Length == NN + 1 && indexOf.Length == NN + 1
    && (forall i :: 0 <= i < NN ==> alphaTo[i] == Exp(i))
    && (forall a: Sym :: indexOf[a] == Idx(a))
  }

  // ----- arithmetic through the tables

  lemma IdxRange(a: Sym)
    ensures -1 <= Idx(a) < NN
    ensures Idx(a) == -1 <==> a == 0
    ensures a != 0 ==> Exp(Idx(a)) == a
  {
    hide Exp;
  }

  lemma IdxExp(k: nat)
    ensures Exp(k) != 0 && Idx(Exp(k)) == k % NN
  {
    hide Exp, Log;
    LengthValue();
    ExpPeriod(k);
    LogExp(k % NN);
  }

  /** Adding an index is multiplying by a power. */
  lemma IndexSum(a: Sym, k: nat)
    requires a != 0
    ensures Idx(a) + k >= 0 && Exp((Idx(a) + k) % NN) == Mul(a, Exp(k))
  {
    hide Exp, Mul, Log;
    ExpPeriod(Log(a) + k);
    ExpAdd(Log(a), k);
  }

  ghost function Factors(fs: seq<Sym>): Sym {
    if |fs| == 0 then 1 else Mul(Factors(fs[..|fs| - 1]), fs[|fs| - 1])
  }

  ghost function IndexTotal(fs: seq<Sym>): nat
    requires 0 !in fs
  {
    if |fs| == 0 then 0 else IndexTotal(fs[..|fs| - 1]) + Idx(fs[|fs| - 1])
  }

  /** Any sum of indices, reduced modulo nn, is the index of the product of the factors. */
  lemma {:induction false} IndexChain(fs: seq<Sym>)
    requires 0 !in fs
    ensures Exp(IndexTotal(fs) % NN) == Factors(fs)
  {
    hide Exp, Mul, Idx;
    LengthValue();
    if |fs| == 0 {
      ExpZero();
    } else {
      var n := |fs| - 1;
      IndexChain(fs[..n]);
      IdxRange(fs[n]);
      ExpPeriod(IndexTotal(fs[..n]));
      ExpPeriod(IndexTotal(fs));
      ExpAdd(IndexTotal(fs[..n]), Idx(fs[n]));
    }
  }

  lemma ExpZero()
    ensures Exp(0) == 1
  {}

  // ----- generate_gf

  ghost function Two(i: nat): int {
    if i == 0 then 1 else 2 * Two(i - 1)
  }

  lemma {:induction false} TwoBound(i: nat)
    requires i <= 8
    ensures 1 <= Two(i) && Two(8) == 256
    ensures i < 8 ==> Two(i) <= 128
  {
    assert Two(1) == 2 && Two(2) == 4 && Two(3) == 8 && Two(4) == 16;
    assert Two(5) == 32 && Two(6) == 64 && Two(7) == 128 && Two(8) == 256;
  }

  lemma {:induction false} ExpTwo(i: nat)
    requires i < 8
    ensures Exp(i) == Two(i)
  {
    hide Exp, Mul;
    ExpStep(0);
    if i > 0 {
      ExpTwo(i - 1);
      TwoBound(i - 1);
      ExpStep(i - 1);
      MulTwo(Exp(i - 1));
      TwoBound(i);
    }
  }

  /** The low-order terms of the primitive polynomial: 1 + X^2 + X^3 + X^4. */
  ghost function LowTerms(i: nat): Sym
    requires i <= 8
  {
    if i == 0 then 0
    else if PP[i - 1] != 0 then Add(LowTerms(i - 1), Exp(i - 1))
    else LowTerms(i - 1)
  }

  lemma LowTermsValue()
    ensures LowTerms(8) == Exp(8)
  {
    hide Exp, Add;
    assert LowTerms(8) == LowTerms(5);
    assert LowTerms(5) == Add(Add(Add(Add(0, Exp(0)), Exp(2)), Exp(3)), Exp(4));
    SumOfLowPowers();
  }

  lemma SumOfLowPowers()
    ensures Add(Add(Add(Add(0, Exp(0)), Exp(2)), Exp(3)), Exp(4)) == Exp(8)
  {
    hide Bits, Pack, Exp;
    LowPowers(0); LowPowers(2); LowPowers(3); LowPowers(4); LowPowers(7);
    BitsOfUnits();
    BitsExpStep(7);
    AddZero(Exp(0));
    AddZero(0);
    var a := Add(Exp(0), Exp(2));
    var b := Add(a, Exp(3));
    AddIs(Exp(0), Exp(2));
    AddIs(a, Exp(3));
    AddIs(b, Exp(4));
    BitsPack(Plus(Bits(Exp(0)), Bits(Exp(2))));
    BitsPack(Plus(Bits(a), Bits(Exp(3))));
    BitsPack(Plus(Bits(b), Bits(Exp(4))));
    PackBits(Add(b, Exp(4)));
    PackBits(Exp(8));
    assert Bits(Add(b, Exp(4))) == Bits(Exp(8));
  }

  /** The doubling rule of the second loop. */
  lemma NextPower(i: nat)
    ensures Exp(i) >= 128 ==> Add(Exp(i), 128) < 128 && Exp(i + 1) == Add(Exp(8), 2 * Add(Exp(i), 128))
    ensures Exp(i) < 128 ==> Exp(i + 1) == 2 * Exp(i)
  {
    hide Exp, Mul, Add;
    ExpStep(i);
    MulTwo(Exp(i));
    ExpStep(7);
    ExpTwo(7);
    TwoBound(7);
    assert Two(7) == 128;
    MulTwo(128);
    AddZero(128);
    AddZero(29);
  }

  /** The entries of indexOf written so far. */
  ghost predicate Indexed(indexOf: array<int>, n: nat)
    requires indexOf.Length == NN + 1
    reads indexOf
  {
    forall k :: 0 <= k < n ==> indexOf[Exp(k)] == k
  }

  lemma AllIndexed(indexOf: array<int>)
    requires indexOf.Length == NN + 1 && Indexed(indexOf, NN) && indexOf[0] == -1
    ensures forall a: Sym :: indexOf[a] == Idx(a)
  {
    hide Exp;
    forall a: Sym ensures indexOf[a] == Idx(a) {
      if a != 0 {
        assert indexOf[Exp(Log(a))] == Log(a);
      }
    }
  }

  /** A new power does not overwrite the index of an earlier one. */
  lemma NewIndex(k: nat, n: nat)
    requires k < n < NN
    ensures Exp(k) != Exp(n) && Exp(n) != 0
  {
    hide Exp;
    ExpDistinct(k, n);
    ExpNonzero(n);
  }

  method GenerateGf(alphaTo: array<int>, indexOf: array<int>)
    requires alphaTo.Length == NN + 1 && indexOf.Length == NN + 1 && alphaTo != indexOf
    modifies alphaTo, indexOf
    ensures Ready(alphaTo, indexOf)
    ensures alphaTo[NN] == old(alphaTo[NN])
  {
    hide Xor, Galois, Exp, Add, Mul, LowTerms, Two;
    FieldOperations();
    LowTermsStart();
    var mask := 1;
    alphaTo[MM] := 0;
    for i := 0 to MM
      invariant mask == Two(i)
      invariant forall k :: 0 <= k < i ==> alphaTo[k] == Exp(k)
      invariant alphaTo[MM] == LowTerms(i)
      invariant alphaTo[NN] == old(alphaTo[NN])
      invariant Indexed(indexOf, i)
    {
      ExpTwo(i);
      LowTermsStep(i);
      alphaTo[i] := mask;
      assert forall k :: 0 <= k < i ==> alphaTo[k] == Exp(k);
      forall k | 0 <= k < i ensures Exp(k) != Exp(i) {
        NewIndex(k, i);
      }
      indexOf[alphaTo[i]] := i;
      if PP[i] != 0 {
        alphaTo[MM] := Xor(alphaTo[MM], mask);
      }
      mask := 2 * mask;
    }
    LowTermsValue();
    forall k | 0 <= k < MM ensures Exp(k) != Exp(MM) {
      NewIndex(k, MM);
    }
    indexOf[alphaTo[MM]] := MM;
    TwoBound(8);
    mask := mask / 2;
    for i := MM + 1 to NN
      invariant forall k :: 0 <= k < i ==> alphaTo[k] == Exp(k)
      invariant alphaTo[NN] == old(alphaTo[NN])
      invariant Indexed(indexOf, i)
    {
      NextPower(i - 1);
      if alphaTo[i - 1] >= mask {
        alphaTo[i] := Xor(alphaTo[MM], 2 * Xor(alphaTo[i - 1], mask));
      } else {
        alphaTo[i] := 2 * alphaTo[i - 1];
      }
      forall k | 0 <= k < i ensures Exp(k) != Exp(i) {
        NewIndex(k, i);
      }
      indexOf[alphaTo[i]] := i;
    }
    forall k | 0 <= k < NN ensures Exp(k) != 0 {
      ExpNonzero(k);
    }
    indexOf[0] := -1;
    AllIndexed(indexOf);
  }

  lemma LowTermsStart()
    ensures LowTerms(0) == 0 && Two(0) == 1
  {}

  lemma LowTermsStep(i: nat)
    requires i < 8
    ensures LowTerms(i + 1) == if PP[i] != 0 then Add(LowTerms(i), Exp(i)) else LowTerms(i)
    ensures Two(i + 1) == 2 * Two(i)
  {
    hide Add, Exp;
  }
}
