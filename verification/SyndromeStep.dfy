/** The first part of decode_rs: index form and syndromes. */
module SyndromeStep {
  import opened BitMultiplier
  import opened GF256
  import opened Sums
  import opened Polynomials
  import opened Words
  import opened Tables
  import opened Encoder

  /** The array holds w in index form. */
  ghost predicate InIndexForm(a: array<int>, w: Poly)
    reads a
  {
    a.Length == |w| && forall i :: 0 <= i < |w| ==> a[i] == Idx(w[i])
  }

  method ToIndexForm(alphaTo: array<int>, indexOf: array<int>, recd: array<int>)
    requires Ready(alphaTo, indexOf) && Symbols(recd) && recd != alphaTo && recd != indexOf
    modifies recd
    ensures InIndexForm(recd, old(Contents(recd)))
  {
    hide Exp, Idx;
    ghost var w := Contents(recd);
    for i := 0 to recd.Length
      invariant forall k :: 0 <= k < i ==> recd[k] == Idx(w[k])
      invariant forall k :: i <= k < |w| ==> recd[k] == w[k]
    {
      recd[i] := indexOf[recd[i]];
    }
  }

  method ToPolynomialForm(alphaTo: array<int>, indexOf: array<int>, recd: array<int>, ghost w: Poly)
    requires Ready(alphaTo, indexOf) && InIndexForm(recd, w) && recd != alphaTo && recd != indexOf
    modifies recd
    ensures recd[..] == w
  {
    hide Exp, Idx;
    for i := 0 to recd.Length
      invariant forall k :: 0 <= k < i ==> recd[k] == w[k]
      invariant forall k :: i <= k < |w| ==> recd[k] == Idx(w[k])
    {
      IdxRange(w[i]);
      if recd[i] != -1 {
        recd[i] := alphaTo[recd[i]];
      } else {
        recd[i] := 0;
      }
    }
  }

  /** A term of an evaluation, by adding exponents. */
  lemma IndexTerm(w: Poly, e: nat, j: nat)
    requires j < |w| && w[j] != 0
    ensures Idx(w[j]) + e * j >= 0
    ensures Exp((Idx(w[j]) + e * j) % NN) == Monomials(w, Exp(e))(j)
  {
    hide Mul, Exp, Idx, Pow;
    IndexSum(w[j], e * j);
    PowExp(e, j, e * j);
  }

  lemma ZeroTerm(w: Poly, x: Sym, j: nat)
    requires j < |w| && w[j] == 0
    ensures Monomials(w, x)(j) == 0
  {
    hide Mul, Pow;
    MulOne(Pow(x, j));
  }

  lemma SumStep(n: nat, f: nat -> Sym)
    ensures Sum(0, f) == 0 && Sum(n + 1, f) == Add(Sum(n, f), f(n))
    ensures f(n) == 0 ==> Sum(n + 1, f) == Sum(n, f)
  {
    hide Add;
    AddZero(Sum(n, f));
  }

  /** s[1..n] hold the syndromes of w in index form; the result says whether one of them is nonzero. */
  method ComputeSyndromes(alphaTo: array<int>, indexOf: array<int>, recd: array<int>, s: array<int>,
                          ghost w: Poly, b0: nat, n: nat)
    returns (synError: bool)
    requires Ready(alphaTo, indexOf) && InIndexForm(recd, w) && IsWord(w)
    requires s != alphaTo && s != indexOf && s != recd && s.Length == n + 1
    modifies s
    ensures forall j :: 1 <= j <= n ==> s[j] == Idx(Syndrome(w, b0, j))
    ensures synError <==> !IsCodeword(w, b0, n)
  {
    hide Xor, Galois, Add, Mul, Exp, Idx, Pow, Sum, Monomials;
    FieldOperations();
    synError := false;
    for i := 1 to n + 1
      invariant forall j :: 1 <= j < i ==> s[j] == Idx(Syndrome(w, b0, j))
      invariant synError <==> exists j :: 1 <= j < i && Syndrome(w, b0, j) != 0
    {
      ghost var f := Monomials(w, Exp(b0 + i - 1));
      s[i] := 0;
      SumStep(0, f);
      for j := 0 to recd.Length
        invariant s[i] == Sum(j, f)
        invariant forall k :: 1 <= k < i ==> s[k] == Idx(Syndrome(w, b0, k))
      {
        SumStep(j, f);
        IdxRange(w[j]);
        if recd[j] != -1 {
          IndexTerm(w, b0 + i - 1, j);
          s[i] := Xor(s[i], alphaTo[(recd[j] + (b0 + i - 1) * j) % NN]);
        } else {
          ZeroTerm(w, Exp(b0 + i - 1), j);
        }
      }
      assert s[i] == Syndrome(w, b0, i);
      if s[i] != 0 {
        synError := true;
      }
      s[i] := indexOf[s[i]];
    }
  }
}
