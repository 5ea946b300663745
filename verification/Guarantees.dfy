/** What the encoder and the decoder guarantee together. */
module Guarantees {
  import opened GF256
  import opened Sums
  import opened Polynomials
  import opened Words
  import opened Tables
  import opened Generator
  import opened Encoder
  import opened Decoder

  // ----- decoding

  /** With at most tt errors the transmitted codeword is recovered, whatever word was sent. */
  lemma FullCorrection(w: Poly, c: Poly, r: Poly, status: int, b0: nat, n: nat, tt: nat)
    requires Decoded(w, r, status, b0, n, tt) && n == 2 * tt
    requires IsCodeword(c, b0, n) && Near(w, c, tt)
    ensures r == c && status == if w == c then 0 else 1
  {
    hide Syndrome, OutOfReach, Diff;
    if status == 0 {
      if w != c {
        MinimumDistance(w, c, b0, n);
      }
    } else if r != c {
      MinimumDistance(c, r, b0, n);
      DiffTriangle(c, w, r, NN);
      DiffSymmetric(c, w, NN);
    }
  }

  /** decode_rs succeeds exactly on the words that have a codeword within tt places. */
  lemma SuccessExactly(w: Poly, r: Poly, status: int, b0: nat, n: nat, tt: nat)
    requires Decoded(w, r, status, b0, n, tt)
    ensures status <= 1 <==> exists c: Poly :: IsCodeword(c, b0, n) && Near(w, c, tt)
  {
    hide Syndrome, OutOfReach;
    if status == 0 {
      DiffSelf(w, NN);
      assert IsCodeword(w, b0, n) && Near(w, w, tt);
    } else if status == 1 {
      assert IsCodeword(r, b0, n) && Near(w, r, tt);
    }
  }

  /** The received word alone decides what is returned and what is left in recd. */
  lemma Deterministic(w: Poly, r: Poly, status: int, r': Poly, status': int, b0: nat, n: nat, tt: nat)
    requires Decoded(w, r, status, b0, n, tt) && Decoded(w, r', status', b0, n, tt) && n == 2 * tt
    ensures r == r' && status == status'
  {
    hide Syndrome, OutOfReach, Near;
    if status == 1 {
      FullCorrection(w, r, r', status', b0, n, tt);
    } else if status' == 1 {
      FullCorrection(w, r', r, status, b0, n, tt);
    }
  }

  /** Decoding again after success returns 0 and changes nothing. */
  lemma Stable(w: Poly, r: Poly, status: int, r': Poly, status': int, b0: nat, n: nat, tt: nat)
    requires Decoded(w, r, status, b0, n, tt) && status <= 1
    requires Decoded(r, r', status', b0, n, tt)
    ensures status' == 0 && r' == r
  {
    hide Syndrome, OutOfReach, Near;
  }

  // ----- the row that the source's table cannot hold

  /** decode_rs does not write past the rows of its table within reach of a codeword... */
  lemma WithinReachNoOverflow(w: Poly, c: Poly, b0: nat, n: nat, tt: nat)
    requires IsCodeword(c, b0, n) && Near(w, c, tt) && n == 2 * tt && tt >= 1
    ensures !LastOnly(w, b0, n)
  {
    hide Syndrome, Diff;
    if LastOnly(w, b0, n) {
      assert w != c;
      MinimumDistance(w, c, b0, n - 1);
    }
  }

  /** ...but it does so for the product of the first n-1 factors of the generator, for one. */
  lemma OverflowHappens(b0: nat, n: nat)
    requires 1 <= n < NN
    ensures LastOnly(Padded(GenSpec(b0, n - 1), NN), b0, n)
  {
    hide Syndrome, Diff, GenSpec;
    var g := GenSpec(b0, n - 1);
    var w, z: Poly := Padded(g, NN), seq(NN, i => 0);
    PaddedCodeword(b0, n - 1);
    if Syndrome(w, b0, n) == 0 {
      ZeroCodeword(b0, n);
      GenMonic(b0, n - 1);
      assert w[n - 1] != z[n - 1];
      DiffTail(w, z, n, NN);
      FewCoefficients(w, z, n, 0);
      MinimumDistance(w, z, b0, n);
    }
  }

  /** The run of decode_rs on that word: it writes past the rows, returns 3 and leaves the word as it is. */
  method DecodeOverflowing(alphaTo: array<int>, indexOf: array<int>, recd: array<int>, tt: nat, b0: nat)
    returns (status: int, ghost wide: bool)
    requires Ready(alphaTo, indexOf) && recd != alphaTo && recd != indexOf && 1 <= tt && 2 * tt < NN
    requires recd.Length == NN && recd[..] == Padded(GenSpec(b0, 2 * tt - 1), NN)
    modifies recd
    ensures wide && status == 3 && recd[..] == old(recd[..])
  {
    hide LastOnly, GenSpec, OutOfReach, IsCodeword, Near, Padded, Exp, Idx;
    ghost var w := Padded(GenSpec(b0, 2 * tt - 1), NN);
    OverflowHappens(b0, 2 * tt);
    assert forall i :: 0 <= i < NN ==> recd[i] == w[i];
    status, wide := DecodeRs(alphaTo, indexOf, recd, 2 * tt, tt, b0);
  }

  // ----- encoding

  /** Moving the parity symbols from the low end to the high end keeps a codeword a codeword. */
  lemma Rotation(parity: Poly, data: Poly, b0: nat, n: nat)
    requires |parity| + |data| == NN
    ensures IsCodeword(parity + data, b0, n) <==> IsCodeword(data + parity, b0, n)
  {
    hide Syndrome;
    forall j | 1 <= j <= n ensures Syndrome(parity + data, b0, j) == 0 <==> Syndrome(data + parity, b0, j) == 0 {
      RotatedSyndrome(parity, data, b0, j);
    }
  }

  lemma RotatedSyndrome(a: Poly, d: Poly, b0: nat, j: nat)
    requires |a| + |d| == NN && j > 0
    ensures Syndrome(a + d, b0, j) == 0 <==> Syndrome(d + a, b0, j) == 0
  {
    hide Eval, Exp;
    RotatedValue(a, d, b0 + j - 1);
  }

  lemma RotatedValue(a: Poly, d: Poly, e: nat)
    requires |a| + |d| == NN
    ensures Eval(a + d, Exp(e)) == 0 <==> Eval(d + a, Exp(e)) == 0
  {
    hide Add, Mul, Eval, Exp, Pow;
    var x, u, v := Exp(e), Eval(a, Exp(e)), Eval(d, Exp(e));
    var f := Pow(x, |d|);
    EvalAppend(a, d, x);
    EvalAppend(d, a, x);
    Distribute(f, u, Mul(Pow(x, |a|), v));
    MulAssoc(f, Pow(x, |a|), v);
    PowAdd(x, |d|, |a|);
    FullPower(e);
    MulOne(v);
    AddComm(Mul(f, u), v);
    assert Mul(f, Eval(a + d, x)) == Eval(d + a, x);
    ExpNonzero(e);
    PowNonzero(x, |d|);
    NoZeroDivisors(f, Eval(a + d, x));
  }

  lemma FullPower(e: nat)
    ensures Pow(Exp(e), NN) == 1
  {
    hide Exp, Pow, Mul;
    LengthValue();
    PowExp(e, NN, e * NN);
    OrderFacts();
    ExpMultiple(255, e, e * 255);
  }

  /** The encoder's parity symbols are the only ones that complete the message to a codeword. */
  lemma ParityUnique(parity: Poly, parity': Poly, data: Poly, b0: nat, n: nat)
    requires |parity| == |parity'| == n
    requires IsCodeword(parity + data, b0, n) && IsCodeword(parity' + data, b0, n)
    ensures parity == parity'
  {
    hide Syndrome, Diff, Places;
    var a, c := parity + data, parity' + data;
    if a == c {
      assert a[..n] == parity && c[..n] == parity';
    } else {
      MinimumDistance(a, c, b0, n);
      DiffTail(a, c, n, NN);
      DiffSize(a, c, n);
    }
  }

  lemma {:induction false} DiffSize(a: Poly, c: Poly, n: nat)
    requires n <= |a| == |c|
    ensures |Diff(a, c, n)| <= n
  {
    hide Places;
    if n > 0 {
      DiffSize(a, c, n - 1);
    }
  }

  /** Codewords of different messages differ in at least n+1 places. */
  lemma MessagesApart(parity: Poly, data: Poly, parity': Poly, data': Poly, b0: nat, n: nat)
    requires |parity| == |parity'| == n && data != data'
    requires IsCodeword(parity + data, b0, n) && IsCodeword(parity' + data', b0, n)
    ensures |parity + data| == |parity' + data'| && Distance(parity + data, parity' + data') >= n + 1
  {
    hide Syndrome, Diff;
    var a, c := parity + data, parity' + data';
    assert a[n..] == data && c[n..] == data';
    MinimumDistance(a, c, b0, n);
  }
}
