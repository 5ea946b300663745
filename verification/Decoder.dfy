/** decode_rs: the parts put together, and what the whole decoder achieves. */
module Decoder {
  import opened BitMultiplier
  import opened GF256
  import opened Polynomials
  import opened PowerSums
  import opened Berlekamp
  import opened Forney
  import opened Words
  import opened Tables
  import opened Encoder
  import opened SyndromeStep
  import opened KeyEquation
  import opened Correction

  // ----- the correction loop

  lemma LocsAre(roots: seq<nat>, k: nat)
    requires k < |roots| && forall i :: 0 <= i < |roots| ==> roots[i] <= NN
    ensures LocsOf(roots)[k] == NN - roots[k]
  {}

  lemma WeightsSnoc(locs: seq<nat>, errs: seq<Sym>, b: nat, k: nat)
    requires |locs| == |errs| && k < |locs|
    ensures |WeightsOf(locs, errs, b)| == |locs| && WeightsOf(locs, errs, b)[k] == Weight(errs[k], b, locs[k])
  {
    hide Weight;
  }

  /** The error values satisfy Forney's equation at every root. */
  ghost predicate Values(p: Poly, S: Poly, roots: seq<nat>, errs: seq<Sym>, b0: nat) {
    && |p| > 0 && |errs| == |roots|
    && forall k :: 0 <= k < |roots| ==>
         ForneyEquation(p, S, Weight(errs[k], b0, LocsOf(roots)[k]), LocatorsOf(LocsOf(roots))[k], PowersOf(roots)[k])
  }

  /** r is w with the error values added at the places of the roots. */
  ghost predicate IsCorrection(w: Poly, r: Poly, roots: seq<nat>, errs: seq<Sym>) {
    |errs| == |roots| && Places(LocsOf(roots), |w|) && r == Corrected(w, LocsOf(roots), errs)
  }

  /** recd, in polynomial form, gets the error values added at the places of the roots. */
  method CorrectErrors(alphaTo: array<int>, indexOf: array<int>, recd: array<int>, z: array<int>,
                       root: array<int>, loc: array<int>, err: array<int>, lu: nat, b0: nat,
                       ghost w: Poly, ghost p: Poly, ghost S: Poly, ghost roots: seq<nat>)
    returns (ghost errs: seq<Sym>)
    requires Ready(alphaTo, indexOf) && InIndexForm(recd, w) && IsWord(w) && err.Length == NN
    requires recd != alphaTo && recd != indexOf && recd != z && recd != root && recd != loc && recd != err
    requires err != alphaTo && err != indexOf && err != z && err != root && err != loc
    requires RootsStored(root, loc, roots) && |roots| == lu && RootList(p, roots, NN)
    requires |p| == lu + 1 && p[0] == 1 && |ZPoly(p, S)| == |p| && ZStored(z, ZPoly(p, S), |p|)
    modifies recd, err
    ensures Symbols(recd) && IsCorrection(w, Contents(recd), roots, errs)
    ensures Values(p, S, roots, errs, b0)
  {
    hide Xor, Galois, Add, Mul, Exp, Idx, ZPoly, Locates, ForneyEquation, Weight, Root, Corrected;
    FieldOperations();
    ghost var locs, ys, zs := LocsOf(roots), LocatorsOf(LocsOf(roots)), PowersOf(roots);
    RootsLocate(p, roots, NN);
    for i := 0 to NN
      modifies err
    {
      err[i] := 0;
    }
    ToPolynomialForm(alphaTo, indexOf, recd, w);
    errs := [];
    CorrectedNowhere(w);
    assert locs[..0] == [];
    for i := 0 to lu
      invariant |errs| == i && Places(locs[..i], |w|) && recd[..] == Corrected(w, locs[..i], errs)
      invariant forall k :: 0 <= k < i ==> ForneyEquation(p, S, Weight(errs[k], b0, locs[k]), ys[k], zs[k])
    {
      LocsAre(roots, i);
      assert Root(p, roots[i]);
      var e := ErrorValue(alphaTo, indexOf, z, root, loc, lu, i, b0, p, S, roots, ys, zs);
      ghost var v := recd[..];
      err[loc[i]] := e;
      AddZero(v[loc[i]]);
      if err[loc[i]] != 0 {
        recd[loc[i]] := Xor(recd[loc[i]], err[loc[i]]);
      }
      assert locs[..i + 1] == locs[..i] + [locs[i]];
      CorrectedSnoc(w, locs[..i], errs, locs[i], e);
      assert recd[..] == v[locs[i] := Add(v[locs[i]], e)];
      errs := errs + [e];
    }
    assert locs[..lu] == locs;
  }

  // ----- success is sound

  /** Forney's weights on the roots of a recurrence for all n syndromes turn w into a codeword nearby. */
  lemma CorrectionIsCodeword(w: Poly, r: Poly, p: Poly, roots: seq<nat>, errs: seq<Sym>, b0: nat, n: nat)
    requires IsWord(w) && RootList(p, roots, NN) && |p| == |roots| + 1 <= n + 1
    requires Generates(p, SyndromeSeq(w, b0, n), n) && IsCorrection(w, r, roots, errs)
    requires Values(p, SyndromeSeq(w, b0, n), roots, errs, b0)
    ensures IsCodeword(r, b0, n) && Near(w, r, |roots|)
  {
    hide Add, Exp, Eval, Conv, Locates, ForneyEquation, Weight, Corrected, PowerSum, Syndrome, Root, Diff;
    var S, locs := SyndromeSeq(w, b0, n), LocsOf(roots);
    var ws, ys, zs := WeightsOf(locs, errs, b0), LocatorsOf(locs), PowersOf(roots);
    RootsLocate(p, roots, NN);
    forall k | 0 <= k < |roots| ensures ForneyEquation(p, S, ws[k], ys[k], zs[k]) {
      WeightsSnoc(locs, errs, b0, k);
    }
    SyndromeZero(w, b0);
    WeightsReproduce(p, S, ws, ys, zs, n);
    CorrectedDistance(w, locs, errs);
    DiffSymmetric(w, r, NN);
    forall j | 1 <= j <= n ensures Syndrome(r, b0, j) == 0 {
      CorrectedSyndrome(w, locs, errs, b0, j - 1);
      SyndromeIs(w, b0, j);
      SyndromeIs(r, b0, j);
      assert S[j] == PowerSum(ws, ys, j - 1);
      AddZero(S[j]);
    }
  }

  lemma SyndromeZero(w: Poly, b: nat)
    ensures Syndrome(w, b, 0) == 0
  {}

  lemma SyndromeIs(w: Poly, b: nat, j: nat)
    requires j > 0
    ensures Syndrome(w, b, j) == Eval(w, Exp(b + (j - 1)))
  {
    hide Eval, Exp;
    assert b + j - 1 == b + (j - 1);
  }

  // ----- the row that the source's table cannot hold

  /** The pattern of syndromes for which decode_rs writes past the n columns of a row: only the last is nonzero. */
  ghost predicate LastOnly(w: Poly, b0: nat, n: nat) {
    IsWord(w) && n >= 1 && Syndrome(w, b0, n) != 0 && forall j :: 1 <= j < n ==> Syndrome(w, b0, j) == 0
  }

  lemma LastOnlyTerm(w: Poly, b0: nat, n: nat)
    requires IsWord(w)
    ensures LastOnly(w, b0, n) <==> LastTerm(SyndromeSeq(w, b0, n), n)
  {
    hide Syndrome;
    var S := SyndromeSeq(w, b0, n);
    assert forall j :: 0 <= j <= n ==> S[j] == Syndrome(w, b0, j);
  }

  lemma LastOnlyNoCodeword(w: Poly, b0: nat, n: nat)
    ensures LastOnly(w, b0, n) ==> !IsCodeword(w, b0, n)
  {
    hide Syndrome;
  }

  /** Then no recurrence of length tt or less generates the syndromes, so the decoder returns 3. */
  lemma LastOnlyOutOfReach(w: Poly, b0: nat, n: nat, tt: nat)
    requires LastOnly(w, b0, n) && n > tt
    ensures OutOfReach(w, b0, n, tt)
  {
    hide Conv, Syndrome;
    var S := SyndromeSeq(w, b0, n);
    forall j: nat | 1 <= j <= n ensures Conv([1], S, j) == S[j] {
      ConvOne(S, j);
    }
    forall g: Poly | Generates(g, S, n) ensures |g| >= tt + 2 {
      LengthBound([1], g, S, n);
    }
  }

  // ----- few errors are always corrected

  /** The recurrence of the table is never longer than the number of errors. */
  lemma LengthWithinErrors(w: Poly, c: Poly, p: Poly, u: nat, b0: nat, n: nat)
    requires IsWord(w) && IsCodeword(c, b0, n) && u <= n + 1
    requires RowOk(p, SyndromeSeq(w, b0, n), u)
    ensures |p| - 1 <= Distance(w, c)
  {
    hide Conv, Locator, Diff, DiffValues, Syndrome, PowerSum, LocatorsOf, WeightsOf;
    var locs, errs := Diff(w, c, NN), DiffValues(w, c, NN);
    SyndromesOfErrors(w, c, b0, n);
    PatternShape(locs, errs, b0);
    var g := Locator(LocatorsOf(locs));
    LocatorGenerates(WeightsOf(locs, errs, b0), LocatorsOf(locs), n);
    assert Generates(g, SyndromeSeq(w, b0, n), u - 1);
  }

  /** A recurrence for all 2*tt syndromes, no longer than tt, has a root for every error. */
  lemma RootsCoverErrors(w: Poly, c: Poly, p: Poly, roots: seq<nat>, b0: nat, n: nat)
    requires IsWord(w) && IsCodeword(c, b0, n) && RootList(p, roots, NN)
    requires Generates(p, SyndromeSeq(w, b0, n), n) && |p| - 1 + Distance(w, c) <= n
    ensures |roots| >= Distance(w, c)
  {
    hide Conv, Diff, DiffValues, Syndrome, PowerSum, WeightsOf, Exp, Mul, Eval, Locates;
    var locs, errs := Diff(w, c, NN), DiffValues(w, c, NN);
    SyndromesOfErrors(w, c, b0, n);
    PatternShape(locs, errs, b0);
    var ys := LocatorsOf(locs);
    ErrorsLocated(p, WeightsOf(locs, errs, b0), ys, n);
    forall k | 0 <= k < |locs| ensures NN - locs[k] in roots {
      InversePowers(NN - locs[k]);
      LocatesRoot(p, ys[k], Exp(NN - locs[k]));
      RootIs(p, NN - locs[k]);
    }
    CountPlaces(locs, roots);
  }

  lemma {:induction false} CountPlaces(locs: seq<nat>, roots: seq<nat>)
    requires Places(locs, NN) && forall k :: 0 <= k < |locs| ==> NN - locs[k] in roots
    ensures |locs| <= |roots|
    decreases |locs|
  {
    if |locs| > 0 {
      var n := |locs| - 1;
      var i :| 0 <= i < |roots| && roots[i] == NN - locs[n];
      var rest := roots[..i] + roots[i + 1..];
      forall k | 0 <= k < n ensures NN - locs[..n][k] in rest {
        assert NN - locs[k] in roots;
      }
      CountPlaces(locs[..n], rest);
    }
  }

  /** No recurrence of length tt or less generates the n syndromes. */
  ghost predicate OutOfReach(w: Poly, b0: nat, n: nat, tt: nat) {
    Minimal(SyndromeSeq(w, b0, n), n, tt + 2)
  }

  lemma ReachDecided(w: Poly, p: Poly, u: nat, b0: nat, n: nat, tt: nat)
    requires RowOk(p, SyndromeSeq(w, b0, n), u) && u <= n + 1
    requires |p| - 1 <= tt ==> u == n + 1
    ensures OutOfReach(w, b0, n, tt) <==> |p| - 1 > tt
  {
    hide Conv, Syndrome;
    var S := SyndromeSeq(w, b0, n);
    if |p| - 1 > tt {
      forall g: Poly | Generates(g, S, n) ensures |g| >= tt + 2 {
        assert Generates(g, S, u - 1);
      }
    }
  }

  // ----- decode_rs

  /**
   * What decode_rs has done to the received word w when it returns status and leaves r:
   * n is the number of syndromes and tt the number of errors the code corrects.
   */
  ghost predicate Decoded(w: Poly, r: Poly, status: int, b0: nat, n: nat, tt: nat) {
    && 0 <= status <= 3
    && (status == 0 <==> IsCodeword(w, b0, n))
    && (status == 3 <==> OutOfReach(w, b0, n, tt))
    && (status != 1 ==> r == w)
    && (status == 1 ==> IsCodeword(r, b0, n) && Near(w, r, tt))
    && (status >= 2 ==> forall c: Poly :: IsCodeword(c, b0, n) ==> !Near(w, c, tt))
  }

  lemma StatusZero(w: Poly, b0: nat, n: nat, tt: nat)
    requires IsCodeword(w, b0, n)
    ensures Decoded(w, w, 0, b0, n, tt)
  {
    CodewordInReach(w, b0, n, tt);
    hide OutOfReach, Syndrome, Distance;
  }

  lemma StatusThree(w: Poly, p: Poly, u: nat, b0: nat, n: nat, tt: nat)
    requires IsWord(w) && !IsCodeword(w, b0, n) && u <= n + 1
    requires RowOk(p, SyndromeSeq(w, b0, n), u) && |p| - 1 > tt
    ensures Decoded(w, w, 3, b0, n, tt)
  {
    hide OutOfReach, RowOk, Syndrome, Distance;
    ReachDecided(w, p, u, b0, n, tt);
    TooFar(w, p, u, b0, n, tt);
  }

  lemma StatusTwo(w: Poly, p: Poly, roots: seq<nat>, u: nat, b0: nat, n: nat, tt: nat)
    requires IsWord(w) && !IsCodeword(w, b0, n) && n == 2 * tt
    requires RowOk(p, SyndromeSeq(w, b0, n), u) && u == n + 1 && |p| - 1 <= tt
    requires RootList(p, roots, NN) && |roots| < |p| - 1
    ensures Decoded(w, w, 2, b0, n, tt)
  {
    hide OutOfReach, RowOk, Syndrome, Distance, RootList;
    ReachDecided(w, p, u, b0, n, tt);
    TooFewRoots(w, p, roots, u, b0, n, tt);
  }

  lemma StatusOne(w: Poly, r: Poly, p: Poly, roots: seq<nat>, errs: seq<Sym>, u: nat, b0: nat, n: nat, tt: nat)
    requires IsWord(w) && !IsCodeword(w, b0, n) && n == 2 * tt
    requires RowOk(p, SyndromeSeq(w, b0, n), u) && u == n + 1 && |p| == |roots| + 1 <= tt + 1
    requires RootList(p, roots, NN) && IsCorrection(w, r, roots, errs)
    requires Values(p, SyndromeSeq(w, b0, n), roots, errs, b0)
    ensures Decoded(w, r, 1, b0, n, tt)
  {
    hide OutOfReach, Syndrome, Distance, RootList, Minimal, IsCorrection, Conv, ForneyEquation, Values;
    ReachDecided(w, p, u, b0, n, tt);
    CorrectionIsCodeword(w, r, p, roots, errs, b0, n);
  }

  /** decode_rs; wide tells whether the run wrote to a column of elp that the source's table does not have. */
  method DecodeRs(alphaTo: array<int>, indexOf: array<int>, recd: array<int>, n: nat, tt: nat, b0: nat)
    returns (status: int, ghost wide: bool)
    requires Ready(alphaTo, indexOf) && recd != alphaTo && recd != indexOf
    requires recd.Length == NN && Symbols(recd) && tt >= 1 && n == 2 * tt
    modifies recd
    ensures Symbols(recd) && Decoded(old(Contents(recd)), Contents(recd), status, b0, n, tt)
    ensures wide <==> LastOnly(old(Contents(recd)), b0, n)
    ensures wide ==> status == 3
  {
    hide Exp, Idx, Conv, Minimal, Syndrome, Decoded, IsCodeword, LastOnly, LastTerm;
    ghost var w := Contents(recd);
    LastOnlyTerm(w, b0, n);
    ghost var S := SyndromeSeq(w, b0, n);
    SyndromeZero(w, b0);
    var s := new int[n + 1];
    ToIndexForm(alphaTo, indexOf, recd);
    var synError := ComputeSyndromes(alphaTo, indexOf, recd, s, w, b0, n);
    if synError {
      var elp, d, l, uLu := new int[n + 2, n + 1], new int[n + 2], new int[n + 2], new int[n + 2];
      var u: nat;
      ghost var p: Poly;
      u, p, wide := BerlekampIteration(alphaTo, indexOf, s, elp, d, l, uLu, tt, n, S);
      if wide {
        LastOnlyOutOfReach(w, b0, n, tt);
        ReachDecided(w, p, u, b0, n, tt);
      }
      if l[u] <= tt {
        status := Repair(alphaTo, indexOf, recd, s, elp, u, l[u], n, tt, b0, w, p);
      } else {
        ToPolynomialForm(alphaTo, indexOf, recd, w);
        StatusThree(w, p, u, b0, n, tt);
        status := 3;
      }
    } else {
      ToPolynomialForm(alphaTo, indexOf, recd, w);
      StatusZero(w, b0, n, tt);
      LastOnlyNoCodeword(w, b0, n);
      wide := false;
      status := 0;
    }
  }

  /** The part of decode_rs that follows a recurrence of length at most tt: search, check and correct. */
  method Repair(alphaTo: array<int>, indexOf: array<int>, recd: array<int>, s: array<int>, elp: array2<int>,
                u: nat, lu: nat, n: nat, tt: nat, b0: nat, ghost w: Poly, ghost p: Poly)
    returns (status: int)
    requires Ready(alphaTo, indexOf) && recd != alphaTo && recd != indexOf && s != recd
    requires InIndexForm(recd, w) && IsWord(w) && !IsCodeword(w, b0, n) && lu <= tt && n == 2 * tt && u == n + 1
    requires SyndromesStored(s, SyndromeSeq(w, b0, n)) && RowOk(p, SyndromeSeq(w, b0, n), u)
    requires RowStored(elp, u, p) && |p| == lu + 1
    modifies recd, elp
    ensures Symbols(recd) && recd.Length == NN && Decoded(w, Contents(recd), status, b0, n, tt)
  {
    hide Exp, Idx, Conv, Minimal, Syndrome, Decoded, IsCodeword, IsCorrection, RootList, ZPoly, Values;
    PutInIndexForm(alphaTo, indexOf, elp, u, lu, p);
    var root, loc, reg := new int[tt], new int[tt], new int[tt + 1];
    var count: nat;
    ghost var roots: seq<nat>;
    count, roots := ChienSearch(alphaTo, indexOf, elp, reg, root, loc, u, lu, tt, p);
    if count == lu {
      var z, err := new int[tt + 1], new int[NN];
      ghost var S := SyndromeSeq(w, b0, n);
      SyndromeZero(w, b0);
      FormZ(alphaTo, indexOf, elp, s, z, u, lu, p, S);
      RootRange(p, roots);
      ghost var errs := CorrectErrors(alphaTo, indexOf, recd, z, root, loc, err, lu, b0, w, p, S, roots);
      StatusOne(w, Contents(recd), p, roots, errs, u, b0, n, tt);
      status := 1;
    } else {
      ToPolynomialForm(alphaTo, indexOf, recd, w);
      StatusTwo(w, p, roots, u, b0, n, tt);
      status := 2;
    }
  }

  lemma RootRange(p: Poly, roots: seq<nat>)
    requires RootList(p, roots, NN)
    ensures forall k :: 0 <= k < |roots| ==> roots[k] <= NN
  {
    hide Root;
  }

  /** The first step after the iteration: row u of elp in index form. */
  method PutInIndexForm(alphaTo: array<int>, indexOf: array<int>, elp: array2<int>, u: nat, lu: nat, ghost p: Poly)
    requires Ready(alphaTo, indexOf) && RowStored(elp, u, p) && |p| == lu + 1
    modifies elp
    ensures RowIndexed(elp, u, p)
  {
    hide Exp, Idx;
    for i := 0 to lu + 1
      invariant forall k :: 0 <= k < i ==> elp[u, k] == Idx(p[k])
      invariant forall k :: i <= k < |p| ==> elp[u, k] == p[k]
    {
      elp[u, i] := indexOf[elp[u, i]];
    }
  }

  lemma CodewordInReach(w: Poly, b0: nat, n: nat, tt: nat)
    requires IsCodeword(w, b0, n)
    ensures !OutOfReach(w, b0, n, tt)
  {
    hide Add, Mul, Syndrome, At, Products;
    var S := SyndromeSeq(w, b0, n);
    forall j | 1 <= j <= n ensures Conv([1], S, j) == 0 {
      ConvOne(S, j);
    }
    assert Generates([1], S, n);
  }

  lemma TooFar(w: Poly, p: Poly, u: nat, b0: nat, n: nat, tt: nat)
    requires IsWord(w) && RowOk(p, SyndromeSeq(w, b0, n), u) && u <= n + 1 && |p| - 1 > tt
    ensures forall c: Poly :: IsCodeword(c, b0, n) ==> !Near(w, c, tt)
  {
    hide RowOk, Syndrome, Distance;
    forall c: Poly | IsCodeword(c, b0, n) ensures !Near(w, c, tt) {
      LengthWithinErrors(w, c, p, u, b0, n);
    }
  }

  lemma TooFewRoots(w: Poly, p: Poly, roots: seq<nat>, u: nat, b0: nat, n: nat, tt: nat)
    requires IsWord(w) && RowOk(p, SyndromeSeq(w, b0, n), u) && u == n + 1 && n == 2 * tt && |p| - 1 <= tt
    requires RootList(p, roots, NN) && |roots| < |p| - 1
    ensures forall c: Poly :: IsCodeword(c, b0, n) ==> !Near(w, c, tt)
  {
    hide Syndrome, Distance, RootList, Minimal, Conv;
    forall c: Poly | IsCodeword(c, b0, n) ensures !Near(w, c, tt) {
      LengthWithinErrors(w, c, p, u, b0, n);
      if Distance(w, c) <= tt {
        RootsCoverErrors(w, c, p, roots, b0, n);
      }
    }
  }
}
