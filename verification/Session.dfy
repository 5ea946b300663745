/** One transmission: initialise, encode, send with noise, decode. */
module Session {
  import opened BitMultiplier
  import opened GF256
  import opened Polynomials
  import opened Words
  import opened Tables
  import opened Generator
  import opened Encoder
  import opened Decoder
  import opened Guarantees

  /** The number of symbols that the noise changes. */
  ghost function ErrorCount(noise: Poly): nat {
    Distance(noise, Zeros(|noise|))
  }

  ghost function Zeros(n: nat): (z: Poly)
    ensures |z| == n && forall i :: 0 <= i < n ==> z[i] == 0
  {
    seq(n, (i: nat) => 0)
  }

  lemma {:induction false} NoiseDistance(c: Poly, noise: Poly, w: Poly, n: nat)
    requires n <= |c| == |noise| == |w| && forall i :: 0 <= i < n ==> w[i] == Add(c[i], noise[i])
    ensures |Diff(w, c, n)| == |Diff(noise, Zeros(|noise|), n)|
  {
    hide Add, Places;
    if n > 0 {
      NoiseDistance(c, noise, w, n - 1);
      AddComm(c[n - 1], noise[n - 1]);
      NoiseSymbol(c[n - 1], noise[n - 1]);
    }
  }

  lemma NoiseSymbol(c: Sym, e: Sym)
    ensures Add(c, e) == c <==> e == 0
  {
    hide Add;
    AddZero(c);
    AddComm(c, e);
    AddCancel(e, c);
    AddZero(e);
    if Add(c, e) == c {
      AddCancel(c, c);
    }
  }

  /** The received word as main lays it out: message symbols first, parity symbols last. */
  method LayOut(data: array<int>, bb: array<int>, recd: array<int>)
    requires recd.Length == data.Length + bb.Length && recd != data && recd != bb
    modifies recd
    ensures recd[..] == data[..] + bb[..]
  {
    var kk := data.Length;
    for k := 0 to bb.Length
      invariant recd[kk..kk + k] == bb[..k]
    {
      recd[kk + k] := bb[k];
    }
    for k := 0 to kk
      invariant recd[kk..] == bb[..]
      invariant recd[..k] == data[..k]
    {
      recd[k] := data[k];
    }
    assert recd[..] == recd[..kk] + recd[kk..];
  }

  /** The channel: noise[k] is added to symbol k. */
  method AddNoise(recd: array<int>, noise: seq<Sym>)
    requires Symbols(recd) && |noise| == recd.Length
    modifies recd
    ensures Symbols(recd)
    ensures forall i :: 0 <= i < recd.Length ==> recd[i] == Add(old(Contents(recd))[i], noise[i])
  {
    hide Xor, Galois, Add;
    FieldOperations();
    for k := 0 to recd.Length
      invariant forall i :: 0 <= i < k ==> recd[i] == Add(old(Contents(recd))[i], noise[i])
      invariant forall i :: k <= i < recd.Length ==> recd[i] == old(Contents(recd))[i]
    {
      recd[k] := Xor(recd[k], noise[k]);
    }
  }

  /** If the noise changes at most tt symbols, decode_rs restores the word that was sent. */
  method Transmit(alphaTo: array<int>, indexOf: array<int>, gg: array<int>, data: array<int>, bb: array<int>,
                  recd: array<int>, tt: nat, b0: nat, noise: seq<Sym>)
    returns (status: int)
    requires alphaTo.Length == NN + 1 && indexOf.Length == NN + 1 && gg.Length == bb.Length + 1
    requires tt >= 1 && bb.Length == 2 * tt && data.Length + bb.Length == NN && recd.Length == NN && b0 < NN
    requires alphaTo != indexOf && gg != alphaTo && gg != indexOf && bb != alphaTo && bb != indexOf && bb != gg
    requires recd != alphaTo && recd != indexOf && recd != gg && recd != bb && recd != data
    requires data != alphaTo && data != indexOf && data != gg && data != bb
    requires Symbols(data) && |noise| == NN
    modifies alphaTo, indexOf, gg, bb, recd
    ensures Symbols(recd) && Symbols(bb)
    ensures IsCodeword(Contents(bb) + Contents(data), b0, bb.Length)
    ensures ErrorCount(noise) <= tt ==>
              && recd[..] == data[..] + bb[..]
              && status == if ErrorCount(noise) == 0 then 0 else 1
  {
    hide Add, Exp, Idx, Decoded, GenSpec, ErrorCount, DivisibleBy, IsCodeword;
    GenerateGf(alphaTo, indexOf);
    GenPoly(alphaTo, indexOf, gg, b0, bb.Length);
    EncodeRs(alphaTo, indexOf, gg, data, bb, b0);
    LayOut(data, bb, recd);
    ghost var c := Contents(data) + Contents(bb);
    assert recd[..] == c;
    assert forall i :: 0 <= i < NN ==> recd[i] == c[i];
    AddNoise(recd, noise);
    ghost var w := Contents(recd);
    ghost var wide;
    status, wide := DecodeRs(alphaTo, indexOf, recd, bb.Length, tt, b0);
    Rotation(Contents(bb), Contents(data), b0, bb.Length);
    NoiseCorrected(c, noise, w, Contents(recd), status, b0, bb.Length, tt);
  }

  lemma NoiseCorrected(c: Poly, noise: Poly, w: Poly, r: Poly, status: int, b0: nat, n: nat, tt: nat)
    requires IsCodeword(c, b0, n) && IsWord(w) && |noise| == NN && n == 2 * tt
    requires forall i :: 0 <= i < NN ==> w[i] == Add(c[i], noise[i])
    requires Decoded(w, r, status, b0, n, tt)
    ensures ErrorCount(noise) <= tt ==> r == c && status == if ErrorCount(noise) == 0 then 0 else 1
  {
    hide Add, Decoded, Syndrome, Diff, DiffValues;
    NoiseDistance(c, noise, w, NN);
    if ErrorCount(noise) <= tt {
      FullCorrection(w, c, r, status, b0, n, tt);
      DiffSelf(w, NN);
      if Distance(w, c) == 0 {
        NoDifference(w, c);
      }
    }
  }

  lemma NoDifference(a: Poly, b: Poly)
    requires |a| == |b| && Distance(a, b) == 0
    ensures a == b
  {
    hide Add;
    DiffCorrects(a, b, |a|);
    assert Diff(a, b, |a|) == [] && DiffValues(a, b, |a|) == [];
    CorrectedNowhere(a);
  }
}
