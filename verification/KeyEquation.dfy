/** The second part of decode_rs: Berlekamp's iteration on the table of error locator polynomials. */
module KeyEquation {
  import opened BitMultiplier
  import opened GF256
  import opened Sums
  import opened Polynomials
  import opened PowerSums
  import opened Berlekamp
  import opened Tables
  import opened SyndromeStep

  // ----- the table in the arrays

  /** Lengths and gaps of rows 0 .. u, in the source's numbering: u_lu is the gap less one. */
  ghost predicate LengthsStored(l: array<int>, uLu: array<int>, rows: seq<Poly>)
    reads l, uLu
  {
    && |rows| <= l.Length && |rows| <= uLu.Length
    && forall j :: 0 <= j < |rows| ==> l[j] == |rows[j]| - 1 && uLu[j] == Gap(rows, j) - 1
  }

  /** Discrepancies 0 .. m-1, in index form. */
  ghost predicate DiscrepanciesStored(d: array<int>, rows: seq<Poly>, s: Poly, m: nat)
    reads d
  {
    && m <= d.Length && m <= |rows|
    && forall j :: 0 <= j < m ==> d[j] == Idx(Discrepancy(rows, s, j))
  }

  /** Row j of elp holds p in index form. */
  ghost predicate RowIndexed(elp: array2<int>, j: nat, p: Poly)
    reads elp
  {
    j < elp.Length0 && |p| <= elp.Length1 && forall i :: 0 <= i < |p| ==> elp[j, i] == Idx(p[i])
  }

  /** Row j of elp holds p in polynomial form. */
  ghost predicate RowStored(elp: array2<int>, j: nat, p: Poly)
    reads elp
  {
    j < elp.Length0 && |p| <= elp.Length1 && forall i :: 0 <= i < |p| ==> elp[j, i] == p[i]
  }

  /** Rows below the last are in index form, the last is in polynomial form. */
  ghost predicate RowsStored(elp: array2<int>, rows: seq<Poly>)
    reads elp
  {
    && |rows| > 0
    && (forall j :: 0 <= j < |rows| - 1 ==> RowIndexed(elp, j, rows[j]))
    && RowStored(elp, |rows| - 1, rows[|rows| - 1])
  }

  ghost predicate SyndromesStored(s: array<int>, S: Poly)
    reads s
  {
    s.Length == |S| && forall j :: 1 <= j < |S| ==> s[j] == Idx(S[j])
  }

  // ----- the search for the best earlier row

  method FindBest(d: array<int>, l: array<int>, uLu: array<int>, u: nat, ghost rows: seq<Poly>, ghost s: Poly)
    returns (q: nat)
    requires |rows| == u + 1 && u >= 1
    requires LengthsStored(l, uLu, rows) && DiscrepanciesStored(d, rows, s, u + 1)
    ensures Best(rows, s, u, q)
  {
    hide Idx, Gap, Conv;
    forall j | 0 <= j <= u ensures d[j] == -1 <==> Discrepancy(rows, s, j) == 0 {
      IdxRange(Discrepancy(rows, s, j));
    }
    assert d[0] != -1;
    q := u - 1;
    while d[q] == -1 && q > 0
      invariant q < u
      invariant forall j :: q < j < u ==> d[j] == -1
    {
      q := q - 1;
    }
    if q > 0 {
      ghost var top := q;
      var j := q;
      var more := true;
      while more
        invariant j <= top && q <= top && d[q] != -1
        invariant more || j == 0
        invariant more ==> j > 0
        invariant forall k :: top < k < u ==> d[k] == -1
        invariant forall k :: j <= k <= top && d[k] != -1 ==> uLu[k] <= uLu[q]
        decreases j + if more then 1 else 0
      {
        j := j - 1;
        if d[j] != -1 && uLu[q] < uLu[j] {
          q := j;
        }
        more := j > 0;
      }
    }
  }

  // ----- a zero discrepancy: the row is carried over

  method CopyRow(alphaTo: array<int>, indexOf: array<int>, elp: array2<int>, l: array<int>, u: nat, ghost p: Poly)
    requires Ready(alphaTo, indexOf) && RowStored(elp, u, p) && u + 1 < elp.Length0
    requires u < l.Length && l[u] == |p| - 1
    modifies elp
    ensures RowIndexed(elp, u, p) && RowStored(elp, u + 1, p)
    ensures forall j, i :: 0 <= j < u && 0 <= i < elp.Length1 ==> elp[j, i] == old(elp[j, i])
  {
    hide Exp, Idx;
    for i := 0 to l[u] + 1
      invariant forall k :: 0 <= k < i ==> elp[u + 1, k] == p[k] && elp[u, k] == Idx(p[k])
      invariant forall k :: i <= k < |p| ==> elp[u, k] == p[k]
      invariant forall j, k :: 0 <= j < u && 0 <= k < elp.Length1 ==> elp[j, k] == old(elp[j, k])
    {
      elp[u + 1, i] := elp[u, i];
      elp[u, i] := indexOf[elp[u, i]];
    }
  }

  // ----- a nonzero discrepancy: the row is combined with the best earlier row

  /** The factor that makes the discrepancy of row q cancel that of row u, from their index forms. */
  ghost function Ratio(du: nat, dq: nat): Sym
    requires dq < NN
  {
    Exp(du + NN - dq)
  }

  lemma RatioCancels(a: Sym, b: Sym)
    requires a != 0 && b != 0
    ensures Idx(a) >= 0 && 0 <= Idx(b) < NN && Mul(Ratio(Idx(a), Idx(b)), b) == a
  {
    hide Exp, Mul, Idx;
    IdxRange(a);
    IdxRange(b);
    ExpAdd(Idx(a) + NN - Idx(b), Idx(b));
    ExpPeriod(Idx(a) + NN);
    ExpPeriod(Idx(a));
  }

  lemma RatioTerm(du: nat, dq: nat, a: Sym)
    requires dq < NN && a != 0
    ensures du + NN - dq + Idx(a) >= 0
    ensures Exp((du + NN - dq + Idx(a)) % NN) == Mul(Ratio(du, dq), a)
  {
    hide Exp, Mul, Idx;
    IndexSum(a, du + NN - dq);
    MulComm(a, Exp(du + NN - dq));
  }

  /** The new row's columns stay below n, except when row 0 is combined at the very last step. */
  lemma ColumnRange(rows: seq<Poly>, s: Poly, u: nat, q: nat, n: nat)
    requires Table(rows, s) && u == |rows| - 1 && Best(rows, s, u, q) && u <= n
    ensures 0 < |rows[u]| <= u && 0 < |rows[q]|
    ensures |rows[q]| - 1 + u - q <= n
    ensures |rows[q]| - 1 + u - q == n ==> u == n && q == 0 && rows[q] == [1]
  {
    hide Conv, Minimal;
    BestBelow(rows, s, q);
    assert RowOk(rows[u], s, u);
    if q > 0 {
      assert RowOk(rows[q], s, q);
    }
  }

  /** The recurrence stays constant exactly as long as the sequence is zero. */
  lemma ConstantRow(p: Poly, s: Poly, u: nat)
    requires RowOk(p, s, u) && u <= |s|
    ensures |p| == 1 <==> forall j :: 1 <= j < u ==> s[j] == 0
  {
    hide Conv;
    if |p| == 1 {
      assert p == [1];
      forall j | 1 <= j < u ensures s[j] == 0 {
        ConvOne(s, j);
      }
    }
    if forall j :: 1 <= j < u ==> s[j] == 0 {
      forall j | 1 <= j < u ensures Conv([1], s, j) == 0 {
        ConvOne(s, j);
      }
      assert Generates([1], s, u - 1);
    }
  }

  /** The last of the n terms is the only one that is not zero. */
  ghost predicate LastTerm(s: Poly, n: nat) {
    |s| == n + 1 && n >= 1 && s[n] != 0 && forall j :: 1 <= j < n ==> s[j] == 0
  }

  /**
   * A row of elp in the source has n columns. Forming row u+1 writes beyond them exactly at the last
   * step, for a sequence of which only the last term is nonzero.
   */
  lemma ColumnOverflow(rows: seq<Poly>, s: Poly, u: nat, q: nat, n: nat)
    requires Table(rows, s) && u == |rows| - 1 <= n && |s| == n + 1
    requires Best(rows, s, u, q) && Discrepancy(rows, s, u) != 0
    ensures |rows[q]| - 1 + u - q >= n <==> u == n && LastTerm(s, n)
  {
    hide Conv, Best, Minimal, Generates;
    TableShape(rows, s);
    BestGap(rows, s, q);
    BestBelow(rows, s, q);
    ConstantRow(rows[u], s, u);
    if |rows[u]| == 1 {
      assert rows[u] == [1];
      LastDiscrepancy(rows, s, u);
    }
  }

  /** A constant row misses exactly the next term. */
  lemma LastDiscrepancy(rows: seq<Poly>, s: Poly, u: nat)
    requires 0 < u < |rows| && u < |s| && rows[u] == [1]
    ensures Discrepancy(rows, s, u) == s[u]
  {
    hide Conv;
    ConvOne(s, u);
  }

  /** If only the last term is nonzero, every row up to the last stays constant. */
  lemma LastTermRow(rows: seq<Poly>, s: Poly, u: nat, n: nat)
    requires Table(rows, s) && u == |rows| - 1 <= n && LastTerm(s, n)
    ensures rows[u] == [1] && (u == n ==> Discrepancy(rows, s, u) != 0)
  {
    hide Conv, Minimal;
    TableShape(rows, s);
    ConstantRow(rows[u], s, u);
    assert rows[u] == [1];
    LastDiscrepancy(rows, s, u);
  }

  /** The first m coefficients of c * X^k * r. */
  ghost function Raise(c: Sym, r: Poly, k: nat, m: nat): Poly {
    seq(m, (i: nat) => RaiseAt(c, r, k, i))
  }

  ghost function RaiseAt(c: Sym, r: Poly, k: nat, i: nat): Sym {
    Mul(c, At(r, i - k))
  }

  /**
   * Row u+1 becomes c * X^(u-q) times row q, where c is the ratio of the discrepancies; wide tells whether
   * that wrote to a column n or above.
   */
  method ScaleRow(alphaTo: array<int>, indexOf: array<int>, elp: array2<int>, du: nat, dq: nat, lq: nat,
                  u: nat, q: nat, n: nat, ghost r: Poly, ghost m: nat)
    returns (ghost wide: bool)
    requires Ready(alphaTo, indexOf) && elp.Length0 == n + 2 && elp.Length1 == n + 1 && q < u <= n && dq < NN
    requires RowIndexed(elp, q, r) && |r| == lq + 1 && lq + u - q < m
    requires m <= n || (m == n + 1 && lq + u - q == n && r[lq] != 0)
    modifies elp
    ensures RowStored(elp, u + 1, Raise(Ratio(du, dq), r, u - q, m))
    ensures wide <==> lq + u - q >= n
    ensures forall j, x :: 0 <= j <= u && 0 <= x < elp.Length1 ==> elp[j, x] == old(elp[j, x])
  {
    hide Mul, Exp, Idx, Ratio;
    ghost var c, k := Ratio(du, dq), u - q;
    var v := u + 1;
    for i := 0 to n
      invariant forall x :: 0 <= x < i ==> elp[v, x] == 0
      invariant forall j, x :: 0 <= j <= u && 0 <= x < elp.Length1 ==> elp[j, x] == old(elp[j, x])
    {
      elp[v, i] := 0;
    }
    wide := false;
    for i := 0 to lq + 1
      invariant wide <==> i == lq + 1 && lq + u - q >= n
      invariant forall x :: 0 <= x < n && (x < k || x >= k + i) ==> elp[v, x] == 0
      invariant forall x :: k <= x < k + i ==> elp[v, x] == Mul(c, r[x - k])
      invariant forall j, x :: 0 <= j <= u && 0 <= x < elp.Length1 ==> elp[j, x] == old(elp[j, x])
    {
      IdxRange(r[i]);
      MulZeroTerm(c, r[i]);
      assert elp[q, i] == Idx(r[i]);
      if elp[q, i] != -1 {
        RatioTerm(du, dq, r[i]);
        elp[v, i + u - q] := alphaTo[(du + NN - dq + elp[q, i]) % NN];
        wide := wide || i + u - q >= n;
      }
    }
    forall x | 0 <= x < m ensures elp[v, x] == Mul(c, At(r, x - k)) {
      MulZeroTerm(c, At(r, x - k));
    }
  }

  /** Row u is added to row u+1 and converted to index form. */
  method MergeRow(alphaTo: array<int>, indexOf: array<int>, elp: array2<int>, lu: nat, u: nat,
                  ghost p: Poly, ghost r: Poly, ghost c: Sym, ghost k: nat, ghost m: nat)
    requires Ready(alphaTo, indexOf) && RowStored(elp, u + 1, Raise(c, r, k, m))
    requires RowStored(elp, u, p) && |p| == lu + 1 <= m
    modifies elp
    ensures RowIndexed(elp, u, p) && RowStored(elp, u + 1, Combine(p, r, c, k, m))
    ensures forall j, x :: 0 <= j < u && 0 <= x < elp.Length1 ==> elp[j, x] == old(elp[j, x])
  {
    hide Xor, Galois, Add, Mul, Exp, Idx, Combine, Raise;
    FieldOperations();
    ghost var base, p' := Raise(c, r, k, m), Combine(p, r, c, k, m);
    forall x | 0 <= x < m ensures |base| == |p'| == m && p'[x] == Add(At(p, x), base[x]) {
      CombinedEntry(p, r, c, k, m, x);
    }
    CombinedEntry(p, r, c, k, m, 0);
    var v := u + 1;
    for i := 0 to lu + 1
      invariant forall x :: 0 <= x < i ==> elp[v, x] == p'[x] && elp[u, x] == Idx(p[x])
      invariant forall x :: i <= x < m ==> elp[v, x] == base[x]
      invariant forall x :: i <= x < |p| ==> elp[u, x] == p[x]
      invariant forall j, x :: 0 <= j < u && 0 <= x < elp.Length1 ==> elp[j, x] == old(elp[j, x])
    {
      AddComm(elp[v, i], p[i]);
      elp[v, i] := Xor(elp[v, i], elp[u, i]);
      elp[u, i] := indexOf[elp[u, i]];
    }
    forall x | |p| <= x < m ensures elp[v, x] == p'[x] {
      AddZero(base[x]);
    }
  }

  lemma CombinedEntry(p: Poly, r: Poly, c: Sym, k: nat, m: nat, x: nat)
    requires x < m
    ensures |Raise(c, r, k, m)| == |Combine(p, r, c, k, m)| == m
    ensures Combine(p, r, c, k, m)[x] == Add(At(p, x), Raise(c, r, k, m)[x])
  {
    hide Add, Mul;
  }

  method FormRow(alphaTo: array<int>, indexOf: array<int>, elp: array2<int>, d: array<int>, l: array<int>,
                 u: nat, q: nat, n: nat, ghost rows: seq<Poly>, ghost s: Poly)
    returns (ghost c: Sym, ghost wide: bool)
    requires Ready(alphaTo, indexOf) && elp.Length0 == n + 2 && elp.Length1 == n + 1
    requires l != alphaTo && l != indexOf && l != d && l.Length == n + 2
    requires Table(rows, s) && u == |rows| - 1 <= n && |s| == n + 1 && Best(rows, s, u, q)
    requires RowsStored(elp, rows) && DiscrepanciesStored(d, rows, s, u + 1)
    requires l[u] == |rows[u]| - 1 && l[q] == |rows[q]| - 1 && Discrepancy(rows, s, u) != 0
    modifies elp, l
    ensures wide <==> u == n && LastTerm(s, n)
    ensures Mul(c, Discrepancy(rows, s, q)) == Discrepancy(rows, s, u)
    ensures l[u + 1] == Max(|rows[u]|, |rows[q]| + u - q) - 1
    ensures forall j :: 0 <= j <= u ==> l[j] == old(l[j])
    ensures RowIndexed(elp, u, rows[u])
    ensures RowStored(elp, u + 1, Combine(rows[u], rows[q], c, u - q, l[u + 1] + 1))
    ensures forall j, i :: 0 <= j < u && 0 <= i < elp.Length1 ==> elp[j, i] == old(elp[j, i])
  {
    hide Add, Mul, Exp, Idx, Conv, Table, Combine, Best, Ratio, Discrepancy, LastTerm;
    ColumnRange(rows, s, u, q, n);
    ColumnOverflow(rows, s, u, q, n);
    BestBelow(rows, s, q);
    IdxRange(Discrepancy(rows, s, u));
    IdxRange(Discrepancy(rows, s, q));
    RatioCancels(Discrepancy(rows, s, u), Discrepancy(rows, s, q));
    c := Ratio(d[u], d[q]);
    ghost var p, r, k := rows[u], rows[q], u - q;
    if l[u] > l[q] + u - q {
      l[u + 1] := l[u];
    } else {
      l[u + 1] := l[q] + u - q;
    }
    assert RowIndexed(elp, q, r);
    var m := l[u + 1] + 1;
    wide := ScaleRow(alphaTo, indexOf, elp, d[u], d[q], l[q], u, q, n, r, m);
    assert RowStored(elp, u, p);
    MergeRow(alphaTo, indexOf, elp, l[u], u, p, r, c, k, m);
  }

  lemma MulZeroTerm(c: Sym, a: Sym)
    ensures a == 0 ==> Mul(c, a) == 0
  {
    hide Mul;
    MulOne(c);
  }

  // ----- the next discrepancy

  lemma DiscrepancyTerm(p: Poly, s: Poly, j: nat, i: nat)
    requires i < |p| && i < j < |s|
    ensures p[i] == 0 || s[j - i] == 0 ==> Products(p, s, j)(i) == 0
    ensures p[i] != 0 && s[j - i] != 0 ==>
              && Idx(s[j - i]) + Idx(p[i]) >= 0
              && Exp((Idx(s[j - i]) + Idx(p[i])) % NN) == Products(p, s, j)(i)
  {
    hide Mul, Exp, Idx, Products;
    ProductsAt(p, s, j, i);
    MulOne(s[j - i]);
    MulOne(p[i]);
    if p[i] != 0 && s[j - i] != 0 {
      IdxRange(p[i]);
      IndexSum(s[j - i], Idx(p[i]));
      MulComm(p[i], s[j - i]);
    }
  }

  method FormDiscrepancy(alphaTo: array<int>, indexOf: array<int>, elp: array2<int>, d: array<int>, l: array<int>,
                         s: array<int>, u: nat, ghost p: Poly, ghost S: Poly)
    requires Ready(alphaTo, indexOf) && d != alphaTo && d != indexOf && d != l && d != s
    requires SyndromesStored(s, S) && u + 1 < |S| && u + 1 < d.Length && u + 1 < l.Length
    requires RowStored(elp, u + 1, p) && 0 < |p| <= u + 1 && p[0] == 1 && l[u + 1] == |p| - 1
    modifies d
    ensures d[u + 1] == Idx(Conv(p, S, u + 1))
    ensures forall j :: 0 <= j <= u ==> d[j] == old(d[j])
  {
    hide Xor, Galois, Add, Mul, Exp, Idx, Sum, Products;
    FieldOperations();
    ghost var f := Products(p, S, u + 1);
    IdxRange(S[u + 1]);
    if s[u + 1] != -1 {
      d[u + 1] := alphaTo[s[u + 1]];
    } else {
      d[u + 1] := 0;
    }
    SumStep(0, f);
    ProductsAt(p, S, u + 1, 0);
    MulOne(S[u + 1]);
    AddZero(S[u + 1]);
    for i := 1 to l[u + 1] + 1
      invariant d[u + 1] == Sum(i, f)
      invariant forall j :: 0 <= j <= u ==> d[j] == old(d[j])
    {
      SumStep(i, f);
      DiscrepancyTerm(p, S, u + 1, i);
      IdxRange(S[u + 1 - i]);
      IdxRange(p[i]);
      if s[u + 1 - i] != -1 && elp[u + 1, i] != 0 {
        d[u + 1] := Xor(d[u + 1], alphaTo[(s[u + 1 - i] + indexOf[elp[u + 1, i]]) % NN]);
      }
    }
    d[u + 1] := indexOf[d[u + 1]];
  }

  // ----- the iteration

  /** The arrays hold the table rows, and the discrepancies of all rows that have one. */
  ghost predicate Stored(elp: array2<int>, d: array<int>, l: array<int>, uLu: array<int>,
                         rows: seq<Poly>, s: Poly, n: nat)
    reads elp, d, l, uLu
  {
    && Table(rows, s) && |rows| <= n + 2 && |s| == n + 1
    && elp.Length0 == n + 2 && elp.Length1 == n + 1
    && d.Length == n + 2 && l.Length == n + 2 && uLu.Length == n + 2
    && LengthsStored(l, uLu, rows) && RowsStored(elp, rows)
    && DiscrepanciesStored(d, rows, s, if |rows| == n + 2 then n + 1 else |rows|)
  }

  ghost predicate Separate(alphaTo: array<int>, indexOf: array<int>, s: array<int>,
                           d: array<int>, l: array<int>, uLu: array<int>) {
    && d != alphaTo && d != indexOf && d != s && l != alphaTo && l != indexOf && l != s
    && uLu != alphaTo && uLu != indexOf && uLu != s && d != l && d != uLu && l != uLu
  }

  /** Row u+1, its length and the index form of row u. */
  method NextRow(alphaTo: array<int>, indexOf: array<int>, elp: array2<int>, d: array<int>, l: array<int>,
                 uLu: array<int>, u: nat, n: nat, ghost rows: seq<Poly>, ghost S: Poly)
    returns (ghost p: Poly, ghost wide: bool)
    requires Ready(alphaTo, indexOf) && l != alphaTo && l != indexOf && l != d && l != uLu
    requires Stored(elp, d, l, uLu, rows, S, n) && |rows| == u + 1 && u <= n
    modifies elp, l
    ensures wide <==> u == n && LastTerm(S, n)
    ensures Table(rows + [p], S) && l[u + 1] == |p| - 1
    ensures RowIndexed(elp, u, rows[u]) && RowStored(elp, u + 1, p)
    ensures forall j :: 0 <= j <= u ==> l[j] == old(l[j])
    ensures forall j, x :: 0 <= j < u && 0 <= x < elp.Length1 ==> elp[j, x] == old(elp[j, x])
  {
    hide Add, Mul, Exp, Idx, Conv, Table, Combine, Best, Discrepancy, Gap, LastTerm;
    TableShape(rows, S);
    IdxRange(Discrepancy(rows, S, u));
    if d[u] == -1 {
      wide := false;
      if LastTerm(S, n) {
        LastTermRow(rows, S, u, n);
      }
      p := rows[u];
      l[u + 1] := l[u];
      CopyRow(alphaTo, indexOf, elp, l, u, p);
      StepZero(rows, S);
    } else {
      var q := FindBest(d, l, uLu, u, rows, S);
      BestBelow(rows, S, q);
      ghost var c;
      c, wide := FormRow(alphaTo, indexOf, elp, d, l, u, q, n, rows, S);
      ghost var m := l[u + 1] + 1;
      p := Combine(rows[u], rows[q], c, u - q, m);
      AtCombine(rows[u], rows[q], c, u - q, m, 0);
      StepNonzero(rows, S, q, c, m);
    }
  }

  method BerlekampStep(alphaTo: array<int>, indexOf: array<int>, s: array<int>, elp: array2<int>, d: array<int>,
                       l: array<int>, uLu: array<int>, u: nat, n: nat, ghost rows: seq<Poly>, ghost S: Poly)
    returns (ghost p: Poly, ghost wide: bool)
    requires Ready(alphaTo, indexOf) && Separate(alphaTo, indexOf, s, d, l, uLu) && SyndromesStored(s, S)
    requires Stored(elp, d, l, uLu, rows, S, n) && |rows| == u + 1 && u <= n
    modifies elp, d, l, uLu
    ensures Stored(elp, d, l, uLu, rows + [p], S, n)
    ensures wide <==> u == n && LastTerm(S, n)
  {
    hide Add, Mul, Exp, Idx, Conv, Table, Discrepancy, Gap, LastTerm;
    p, wide := NextRow(alphaTo, indexOf, elp, d, l, uLu, u, n, rows, S);
    ghost var next := rows + [p];
    uLu[u + 1] := u - l[u + 1];
    SameEntries(rows, p, S);
    TableShape(next, S);
    GapOf(next, u + 1);
    assert RowsStored(elp, next);
    if u < n {
      FormDiscrepancy(alphaTo, indexOf, elp, d, l, s, u, p, S);
      DiscrepancyOf(next, S, u + 1);
    }
  }

  lemma TableShape(rows: seq<Poly>, s: Poly)
    requires Table(rows, s)
    ensures |rows| > 1 && rows[0] == [1]
    ensures var p := rows[|rows| - 1]; 0 < |p| <= |rows| - 1 && p[0] == 1 && RowOk(p, s, |rows| - 1)
  {
    hide Conv, Best, Minimal;
    assert RowOk(rows[|rows| - 1], s, |rows| - 1);
  }

  lemma GapOf(rows: seq<Poly>, j: nat)
    requires j < |rows|
    ensures Gap(rows, j) == j - |rows[j]| + 1
  {}

  lemma DiscrepancyOf(rows: seq<Poly>, s: Poly, j: nat)
    requires 0 < j < |rows|
    ensures Discrepancy(rows, s, j) == Conv(rows[j], s, j)
  {
    hide Conv;
  }

  lemma FirstDiscrepancies(rows: seq<Poly>, s: Poly)
    requires |s| > 1 && rows == [[1], [1]]
    ensures Discrepancy(rows, s, 0) == 1 && Discrepancy(rows, s, 1) == s[1]
  {
    hide Add, Mul, Sum;
    ConvOne(s, 1);
  }

  lemma ConvOne(s: Poly, j: nat)
    requires j < |s|
    ensures Conv([1], s, j) == s[j]
  {
    hide Add, Mul, Products;
    var f := Products([1], s, j);
    SumStep(0, f);
    ProductsAt([1], s, j, 0);
    MulOne(s[j]);
    AddZero(s[j]);
  }

  /**
   * The iteration: a shortest recurrence for the syndromes, unless the lengths run over tt first. During it, a
   * column n is written exactly if only the last syndrome is nonzero; then tt is run over.
   */
  method BerlekampIteration(alphaTo: array<int>, indexOf: array<int>, s: array<int>, elp: array2<int>, d: array<int>,
                            l: array<int>, uLu: array<int>, tt: nat, n: nat, ghost S: Poly)
    returns (u: nat, ghost p: Poly, ghost wide: bool)
    requires Ready(alphaTo, indexOf) && Separate(alphaTo, indexOf, s, d, l, uLu)
    requires SyndromesStored(s, S) && |S| == n + 1 && n >= 1
    requires elp.Length0 == n + 2 && elp.Length1 == n + 1
    requires d.Length == n + 2 && l.Length == n + 2 && uLu.Length == n + 2
    modifies elp, d, l, uLu
    ensures 2 <= u <= n + 1 && RowOk(p, S, u)
    ensures l[u] == |p| - 1 && RowStored(elp, u, p)
    ensures l[u] <= tt ==> u == n + 1
    ensures wide <==> LastTerm(S, n)
  {
    hide Add, Mul, Exp, Idx, Conv, Table, Combine, Best, Discrepancy, Gap, LastTerm;
    wide := false;
    ghost var rows: seq<Poly> := [[1], [1]];
    d[0] := 0;
    d[1] := s[1];
    elp[0, 0] := 0;
    elp[1, 0] := 1;
    for i := 1 to n
      modifies elp
      invariant elp[0, 0] == 0 && elp[1, 0] == 1
    {
      elp[0, i] := -1;
      elp[1, i] := 0;
    }
    l[0] := 0;
    l[1] := 0;
    uLu[0] := -1;
    uLu[1] := 0;
    u := 0;
    IdxOne();
    TableStart(S);
    FirstDiscrepancies(rows, S);
    GapOf(rows, 0);
    GapOf(rows, 1);
    assert DiscrepanciesStored(d, rows, S, 2);
    assert RowIndexed(elp, 0, rows[0]);
    var more := true;
    while more
      invariant Stored(elp, d, l, uLu, rows, S, n) && |rows| == u + 2
      invariant more ==> u < n
      invariant wide <==> u == n && LastTerm(S, n)
      invariant !more ==> u >= 1 && (u == n || l[u + 1] > tt)
      decreases n - u + if more then 1 else 0
    {
      u := u + 1;
      p, wide := BerlekampStep(alphaTo, indexOf, s, elp, d, l, uLu, u, n, rows, S);
      rows := rows + [p];
      more := u < n && l[u + 1] <= tt;
    }
    if LastTerm(S, n) && u < n {
      LastTermRow(rows, S, u + 1, n);
    }
    u := u + 1;
    p := rows[u];
    TableShape(rows, S);
  }

  lemma IdxOne()
    ensures Idx(1) == 0
  {
    hide Exp, Idx;
    ExpStep(0);
    IdxExp(0);
  }
}
