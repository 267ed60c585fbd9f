/** What a true result of the decoder means: when the locator found has as many roots as its degree,
every fraction of Forney's formula can be solved, and the block that results is a codeword exactly
if the recurrence is no longer than that degree. */
module Outcome {
  import opened Bits
  import opened GaloisField
  import opened Polynomial
  import opened Roots
  import opened Locator
  import opened BerlekampMassey
  import opened Encoder
  import opened Correction
  import opened Forney

  // ---------------------------------------------------------------------------------------
  // The corrections as geometric series
  // ---------------------------------------------------------------------------------------

  /** The values added at the locations, as geometric series. */
  ghost function FoundTerms(f: GF, first: nat, roots: seq<nat>, values: seq<nat>): (ts: seq<Term>)
    requires |roots| == |values| && forall k :: 0 <= k < |roots| ==> 1 <= roots[k] <= Size(f)
    ensures |ts| == |roots|
    ensures forall k :: 0 <= k < |roots| ==> ts[k] == FoundTerm(f, first, roots[k], values[k])
  {
    seq(|roots|, k requires 0 <= k < |roots| => FoundTerm(f, first, roots[k], values[k]))
  }

  ghost function FoundTerm(f: GF, first: nat, loc: nat, v: nat): Term
    requires 1 <= loc <= Size(f)
  {
    var x := Alpha(f, Size(f) - loc);
    Term(x, Mul(f, v, Pow(f, x, first)))
  }

  ghost predicate Located(f: GF, roots: seq<nat>)
  {
    Increasing(roots) && forall k :: 0 <= k < |roots| ==> 1 <= roots[k] <= Size(f)
  }

  lemma {:induction false} FoundSeries(f: GF, first: nat, roots: seq<nat>, values: seq<nat>)
    requires |roots| == |values| && Located(f, roots)
    ensures var ts := FoundTerms(f, first, roots, values);
            Series(f, ts) && forall k :: 0 <= k < |ts| ==> Inv(f, ts[k].x) == Alpha(f, roots[k])
  {
    hide Alpha, Mul, Pow, Inv;
    var ts := FoundTerms(f, first, roots, values);
    forall i, j | 0 <= i < j < |ts|
      ensures ts[i].x != ts[j].x
    {
      if ts[i].x == ts[j].x {
        AlphaInjective(f, Size(f) - roots[i], Size(f) - roots[j]);
      }
    }
    forall k | 0 <= k < |ts|
      ensures Inv(f, ts[k].x) == Alpha(f, roots[k])
    {
      InverseIsAlpha(f, Size(f) - roots[k]);
    }
  }

  // ---------------------------------------------------------------------------------------
  // Solvable fractions
  // ---------------------------------------------------------------------------------------

  /** A locator with as many roots as its degree has no multiple root. */
  lemma {:induction false} SplitIsSimple(f: GF, lambda: Poly, roots: seq<nat>, k: nat)
    requires Elems(f, lambda) && Nonzero(lambda) && |lambda| == |roots| + 1 && k < |roots| && Located(f, roots)
    requires forall j :: 0 <= j < |roots| ==> Eval(f, lambda, Alpha(f, roots[j])) == 0
    ensures Denominator(f, lambda, roots[k]) == Eval(f, Quotient(f, lambda, Alpha(f, roots[k])), Alpha(f, roots[k]))
    ensures Denominator(f, lambda, roots[k]) != 0 && Elem(f, Denominator(f, lambda, roots[k]))
  {
    hide Alpha, Eval, Inv, Nonzero;
    var zeros := seq(|roots|, i => 0);
    var ts := FoundTerms(f, 0, roots, zeros);
    FoundSeries(f, 0, roots, zeros);
    SimpleRoot(f, lambda, ts, k);
    DerivativeAtRoot(f, lambda, Alpha(f, roots[k]));
    DenominatorElem(f, lambda, roots[k]);
  }

  /** Forney's fraction, multiplied out. */
  lemma {:induction false} MultipliedOut(f: GF, w: nat, q: nat, r: nat, x: nat, y: nat, xb: nat, v: nat)
    requires Elem(f, q) && q != 0 && Elem(f, w) && Mul(f, x, y) == 1 && Mul(f, r, xb) == x
    requires v == Div(f, Mul(f, w, r), q)
    ensures Mul(f, Mul(f, v, xb), Mul(f, y, q)) == w
  {
    hide Mul, Div;
    DivMul(f, Mul(f, w, r), q);
    // (v xb)(y q) = (v q)(xb y) = (w r)(xb y) = w ((r xb) y) = w
    MulComm(f, y, q);
    MulSwap(f, v, xb, q, y);
    MulAssoc(f, w, r, Mul(f, xb, y));
    MulAssoc(f, r, xb, y);
    MulOne(f, w);
    MulComm(f, w, 1);
  }

  ghost function ValueAt(f: GF, table: seq<nat>, lambda: Poly, s: Poly, loc: nat): (v: nat)
    requires Elems(f, lambda) && loc <= Size(f) && |table| == Size(f) + 1
    ensures Elem(f, v)
  {
    Magnitude(f, lambda, Numerator(f, lambda, s, table[loc], loc), loc)
  }

  /** The value of the evaluator polynomial at a location, in terms of the value that is added. */
  lemma {:induction false} EvaluatorOfValue(f: GF, first: nat, table: seq<nat>, lambda: Poly, s: Poly, loc: nat, q: nat)
    requires RootTable(f, first, table) && Elems(f, lambda) && 1 <= loc <= Size(f)
    requires q == Denominator(f, lambda, loc) && q != 0 && Elem(f, q)
    ensures Eval(f, PrefixProduct(f, lambda, s, |s|), Alpha(f, loc)) ==
            Mul(f, FoundTerm(f, first, loc, ValueAt(f, table, lambda, s, loc)).w, Mul(f, Alpha(f, loc), q))
  {
    hide Alpha, Mul, Pow, Eval, Div, Denominator, PrefixProduct;
    var p := Size(f) - loc;
    var x, y := Alpha(f, p), Alpha(f, loc);
    var e := Eval(f, PrefixProduct(f, lambda, s, |s|), y);
    EvalElem(f, PrefixProduct(f, lambda, s, |s|), y);
    TableAt(f, first, table, loc);
    AlphaInverse(f, p);
    MultipliedOut(f, e, q, table[loc], x, y, Pow(f, x, first), ValueAt(f, table, lambda, s, loc));
  }

  // ---------------------------------------------------------------------------------------
  // The syndromes are the sums of the corrections
  // ---------------------------------------------------------------------------------------

  lemma {:induction false} Truncated(f: GF, a: Poly, s: Poly, d: nat, x: nat)
    requires d <= |s| && forall m :: d <= m < |s| ==> Conv(f, a, s, m) == 0
    ensures Eval(f, PrefixProduct(f, a, s, |s|), x) == Eval(f, PrefixProduct(f, a, s, d), x)
  {
    hide Conv, Eval;
    var p, q := PrefixProduct(f, a, s, |s|), PrefixProduct(f, a, s, d);
    forall m: nat
      ensures At(p, m) == At(q, m)
    {
      if m < |s| {
        assert At(p, m) == Conv(f, a, s, m);
        if m < d {
          assert At(q, m) == Conv(f, a, s, m);
        }
      }
    }
    EvalSame(f, p, q, x);
  }

  /** A polynomial with as many distinct roots as coefficients is zero. */
  lemma {:induction false} ZeroFromRoots(f: GF, s: Poly, rs: seq<nat>, i: nat)
    requires Elems(f, s) && Distinct(rs) && AllRoots(f, s, rs) && |rs| >= |s| && i < |s|
    ensures s[i] == 0
  {
    hide Eval;
    if s[i] != 0 {
      assert Nonzero(s);
      RootBound(f, s, rs);
    }
  }

  /** Polynomials that are shorter than the number of points at which they agree are equal. */
  lemma {:induction false} AgreeAtRoots(f: GF, p: Poly, q: Poly, rs: seq<nat>)
    requires Elems(f, p) && Elems(f, q) && |p| == |q| <= |rs| && Distinct(rs)
    requires forall k :: 0 <= k < |rs| ==> Elem(f, rs[k]) && Eval(f, p, rs[k]) == Eval(f, q, rs[k])
    ensures p == q
  {
    hide Eval, Xor;
    var e := Sum(p, q);
    forall i | 0 <= i < |e|
      ensures Elem(f, e[i])
    {
      assert e[i] == At(e, i) == Xor(At(p, i), At(q, i));
      XorBound(p[i], q[i], f.power);
    }
    forall k | 0 <= k < |rs|
      ensures Eval(f, e, rs[k]) == 0
    {
      EvalSum(f, p, q, rs[k]);
      XorSelf(Eval(f, p, rs[k]));
    }
    forall i | 0 <= i < |p|
      ensures p[i] == q[i]
    {
      ZeroFromRoots(f, e, rs, i);
      assert e[i] == At(e, i) == Xor(At(p, i), At(q, i));
      XorZeroEqual(p[i], q[i]);
    }
  }

  /** Sequences whose products with a polynomial of constant coefficient one agree are equal. */
  lemma {:induction false} SameProducts(f: GF, a: Poly, s: Poly, t: Poly, k: nat)
    requires a != [] && a[0] == 1 && Elems(f, s) && Elems(f, t) && |s| == |t| && k <= |s|
    requires forall m :: 0 <= m < |s| ==> Conv(f, a, s, m) == Conv(f, a, t, m)
    ensures forall j :: 0 <= j < k ==> s[j] == t[j]
    decreases k
  {
    hide Xor, Mul;
    if k > 0 {
      hide Conv;
      SameProducts(f, a, s, t, k - 1);
      var m := k - 1;
      var e := Sum(s, t);
      forall j | 0 <= j <= m
        ensures At(e, j) == Xor(At(s, j), At(t, j))
      {
      }
      ConvXorRight(f, a, s, t, e, m);
      XorSelf(Conv(f, a, s, m));
      forall j | 0 <= j < m
        ensures At(e, j) == 0
      {
        XorSelf(s[j]);
      }
      LeadingProduct(f, a, e, m);
      XorBound(s[m], t[m], f.power);
      MulOne(f, At(e, m));
      XorZeroEqual(s[m], t[m]);
    }
  }

  lemma {:induction false} LeadingProduct(f: GF, a: Poly, e: Poly, m: nat)
    requires a != [] && forall j :: 0 <= j < m ==> At(e, j) == 0
    ensures Conv(f, a, e, m) == Mul(f, a[0], At(e, m))
  {
    hide Xor, Mul;
    ConvZero(f, a[1..], e, m - 1);
    XorZero(Mul(f, a[0], At(e, m)));
  }

  /** The locator has as many roots as its degree, and the values are those of Forney's formula. */
  ghost predicate Split(f: GF, first: nat, table: seq<nat>, lambda: Poly, s: Poly, roots: seq<nat>, values: seq<nat>)
  {
    && RootTable(f, first, table) && Elems(f, lambda) && Nonzero(lambda) && Located(f, roots)
    && |lambda| == |roots| + 1 <= |s| + 1 && |values| == |roots|
    && (forall k :: 0 <= k < |roots| ==> Eval(f, lambda, Alpha(f, roots[k])) == 0)
    && (forall k :: 0 <= k < |roots| ==> values[k] == ValueAt(f, table, lambda, s, roots[k]))
  }

  lemma {:induction false} EvaluatorsAgree(f: GF, first: nat, table: seq<nat>, lambda: Poly, s: Poly, roots: seq<nat>,
                                           values: seq<nat>, t: Poly, k: nat)
    requires Split(f, first, table, lambda, s, roots, values) && k < |roots| && |t| == |s|
    requires Sums(f, FoundTerms(f, first, roots, values), t)
    ensures Eval(f, PrefixProduct(f, lambda, s, |s|), Alpha(f, roots[k])) ==
            Eval(f, PrefixProduct(f, lambda, t, |t|), Alpha(f, roots[k]))
  {
    hide Alpha, Eval, Mul, Pow, Inv, Sums, Series, RootTable, Nonzero, Denominator, Quotient, ValueAt, PrefixProduct, FoundTerm;
    var ts := FoundTerms(f, first, roots, values);
    FoundSeries(f, first, roots, values);
    SplitIsSimple(f, lambda, roots, k);
    EvaluatorOfValue(f, first, table, lambda, s, roots[k], Denominator(f, lambda, roots[k]));
    EvaluatorValue(f, lambda, ts, t, Alpha(f, roots[k]));
    EvaluatorAtRoot(f, lambda, ts, k);
  }

  lemma {:induction false} SumsEnd(f: GF, lambda: Poly, ts: seq<Term>, t: Poly, m: nat)
    requires Series(f, ts) && Sums(f, ts, t) && Elems(f, lambda) && |lambda| <= m + 1 && m < |t|
    requires forall i :: 0 <= i < |ts| ==> Eval(f, lambda, Inv(f, ts[i].x)) == 0
    ensures Conv(f, lambda, t, m) == 0
  {
    hide Conv, Eval, Inv, Series, Sums;
    ConvSums(f, lambda, ts, t, m);
    ConvTermsZero(f, lambda, ts, |t|, m);
  }

  /** If the recurrence is as long as the degree of its locator, the syndromes are the sums of the
  values that are added. */
  lemma {:induction false} SyndromesExplained(f: GF, first: nat, table: seq<nat>, lambda: Poly, s: Poly, roots: seq<nat>,
                                              values: seq<nat>)
    requires Split(f, first, table, lambda, s, roots, values) && Elems(f, s)
    requires Generates(f, lambda, |roots|, s, |s|)
    ensures Sums(f, FoundTerms(f, first, roots, values), s)
  {
    hide Alpha, Eval, Mul, Pow, Inv, RootTable, Nonzero, Conv, ValueAt, FoundTerm;
    var ts, d := FoundTerms(f, first, roots, values), |roots|;
    var t := SumSeq(f, ts, |s|);
    FoundSeries(f, first, roots, values);
    forall m | d <= m < |s|
      ensures Conv(f, lambda, t, m) == 0
    {
      SumsEnd(f, lambda, ts, t, m);
    }
    var p, q := PrefixProduct(f, lambda, s, d), PrefixProduct(f, lambda, t, d);
    var rs := Inverses(f, ts);
    InversesDistinct(f, ts);
    forall k | 0 <= k < |rs|
      ensures Elem(f, rs[k]) && Eval(f, p, rs[k]) == Eval(f, q, rs[k])
    {
      assert rs[k] == Alpha(f, roots[k]);
      EvaluatorsAgree(f, first, table, lambda, s, roots, values, t, k);
      Truncated(f, lambda, s, d, rs[k]);
      Truncated(f, lambda, t, d, rs[k]);
    }
    AgreeAtRoots(f, p, q, rs);
    forall m | 0 <= m < |s|
      ensures Conv(f, lambda, s, m) == Conv(f, lambda, t, m)
    {
      if m < d {
        assert At(p, m) == Conv(f, lambda, s, m) && At(q, m) == Conv(f, lambda, t, m);
      }
    }
    SameProducts(f, lambda, s, t, |s|);
    assert s == t;
  }

  // ---------------------------------------------------------------------------------------
  // The block after the corrections
  // ---------------------------------------------------------------------------------------

  /** The block with the first `k` values added. */
  ghost function ApplyAll(f: Field, a: seq<int>, roots: seq<nat>, values: seq<nat>, k: nat): (r: seq<int>)
    requires k <= |roots| == |values| && forall i :: 0 <= i < |roots| ==> 1 <= roots[i] <= |a|
    ensures |r| == |a|
  {
    if k == 0 then a
    else
      var b, j := ApplyAll(f, a, roots, values, k - 1), roots[k - 1] - 1;
      b[j := SymbolXor(f, b[j], values[k - 1])]
  }

  lemma {:induction false} ApplyAllApplies(f: Field, a: seq<int>, roots: seq<nat>, values: seq<nat>, k: nat)
    requires k <= |roots| == |values| && Increasing(roots) && forall i :: 0 <= i < |roots| ==> 1 <= roots[i] <= |a|
    ensures Applied(f, a, ApplyAll(f, a, roots, values, k), roots, values, k)
    decreases k
  {
    hide SymbolXor, Applied;
    if k == 0 {
      NothingApplied(f, a, roots, values);
    } else {
      ApplyAllApplies(f, a, roots, values, k - 1);
      ApplyNext(f, a, ApplyAll(f, a, roots, values, k - 1), roots, values, k - 1);
    }
  }

  lemma {:induction false} AppliedIsApplyAll(f: Field, a: seq<int>, after: seq<int>, roots: seq<nat>, values: seq<nat>)
    requires |roots| == |values| && |a| == |after| && Increasing(roots)
    requires forall i :: 0 <= i < |roots| ==> 1 <= roots[i] <= |a|
    requires Applied(f, a, after, roots, values, |roots|)
    ensures after == ApplyAll(f, a, roots, values, |roots|)
  {
    hide SymbolXor, Applied, ApplyAll;
    ApplyAllApplies(f, a, roots, values, |roots|);
    var b := ApplyAll(f, a, roots, values, |roots|);
    forall j | 0 <= j < |a|
      ensures after[j] == b[j]
    {
      if j + 1 in roots {
        var k :| 0 <= k < |roots| && roots[k] == j + 1;
        AppliedAt(f, a, after, roots, values, k);
        AppliedAt(f, a, b, roots, values, k);
      } else {
        NotApplied(f, a, after, roots, values, j);
        NotApplied(f, a, b, roots, values, j);
      }
    }
  }

  /** One changed coefficient. */
  lemma {:induction false} EvalUpdate(f: GF, s: Poly, p: nat, v: nat, x: nat)
    requires p < |s| && Elems(f, s) && Elem(f, v)
    ensures Eval(f, s[p := Xor(s[p], v)], x) == Xor(Eval(f, s, x), Mul(f, Pow(f, x, p), v))
    decreases p
  {
    hide Xor, Mul;
    var t := s[p := Xor(s[p], v)];
    if p == 0 {
      assert t[1..] == s[1..];
      var e := Mul(f, x, Eval(f, s[1..], x));
      MulOne(f, v);
      XorComm(s[0], v);
      XorAssoc(v, s[0], e);
      XorComm(v, Xor(s[0], e));
    } else {
      EvalUpdate(f, s[1..], p - 1, v, x);
      assert t[1..] == s[1..][p - 1 := Xor(s[1..][p - 1], v)];
      var e, c := Eval(f, s[1..], x), Mul(f, Pow(f, x, p - 1), v);
      MulXor(f, x, e, c);
      MulAssoc(f, x, Pow(f, x, p - 1), v);
      XorAssoc(s[0], Mul(f, x, e), Mul(f, x, c));
    }
  }

  lemma {:induction false} LoadUpdate(f: GF, a: seq<int>, j: nat, v: nat)
    requires j < |a| && Elem(f, v)
    ensures var p := |a| - 1 - j;
            Load(f, a[j := SymbolXor(f, a[j], v)]) == Load(f, a)[p := Xor(Load(f, a)[p], v)]
  {
    hide Symbol, SymbolXor, Xor;
    SymbolOfXor(f, a[j], v);
    var p, b := |a| - 1 - j, a[j := SymbolXor(f, a[j], v)];
    var l, r := Load(f, b), Load(f, a)[p := Xor(Load(f, a)[p], v)];
    assert |l| == |r|;
    forall i | 0 <= i < |l|
      ensures l[i] == r[i]
    {
    }
  }

  /** Every added value adds its term to every syndrome. */
  lemma {:induction false} SyndromeAfter(f: GF, first: nat, a: seq<int>, roots: seq<nat>, values: seq<nat>, k: nat, j: nat)
    requires |a| == Size(f) && k <= |roots| == |values| && Located(f, roots) && Elems(f, values) && first + j <= Size(f)
    ensures Eval(f, Load(f, ApplyAll(f, a, roots, values, k)), Alpha(f, first + j)) ==
            Xor(Eval(f, Load(f, a), Alpha(f, first + j)), TermSum(f, FoundTerms(f, first, roots, values)[..k], j))
    decreases k
  {
    hide Alpha, Eval, Xor, Mul, Pow, Load, SymbolXor;
    var z, ts := Alpha(f, first + j), FoundTerms(f, first, roots, values);
    if k == 0 {
      assert ts[..0] == [];
      XorZero(Eval(f, Load(f, a), z));
    } else {
      hide TermSum;
      SyndromeAfter(f, first, a, roots, values, k - 1, j);
      var b, loc, v := ApplyAll(f, a, roots, values, k - 1), roots[k - 1], values[k - 1];
      var p := Size(f) - loc;
      LoadUpdate(f, b, loc - 1, v);
      EvalUpdate(f, Load(f, b), p, v, z);
      CoefficientTerm(f, v, p, first, j);
      assert ts[..k] == ts[..k - 1] + [ts[k - 1]];
      TermSumSnoc(f, ts[..k - 1], ts[k - 1], j);
      XorAssoc(Eval(f, Load(f, a), z), TermSum(f, ts[..k - 1], j), Mul(f, ts[k - 1].w, Pow(f, ts[k - 1].x, j)));
    }
  }

  /** Once the sums of the added values are the syndromes, the block is a codeword. */
  lemma {:induction false} SumsMakeCodeword(f: GF, first: nat, a: seq<int>, s: Poly, roots: seq<nat>, values: seq<nat>)
    requires |a| == Size(f) && |roots| == |values| && Located(f, roots) && Elems(f, values)
    requires Syndromes(f, first, a, s) && first + |s| <= Size(f) && Sums(f, FoundTerms(f, first, roots, values), s)
    ensures Codeword(f, first, |s|, ApplyAll(f, a, roots, values, |roots|))
  {
    hide Alpha, Eval, Xor, TermSum, ApplyAll, Load;
    var ts := FoundTerms(f, first, roots, values);
    assert ts[..|roots|] == ts;
    forall i | first <= i < first + |s|
      ensures Eval(f, Load(f, ApplyAll(f, a, roots, values, |roots|)), Alpha(f, i)) == 0
    {
      SyndromeAfter(f, first, a, roots, values, |roots|, i - first);
      assert s[i - first] == TermSum(f, ts, i - first);
      XorSelf(s[i - first]);
    }
  }

  // ---------------------------------------------------------------------------------------
  // The meaning of the result
  // ---------------------------------------------------------------------------------------

  lemma {:induction false} SplitSolvable(f: GF, table: seq<nat>, lambda: Poly, s: Poly, roots: seq<nat>)
    requires Elems(f, lambda) && Nonzero(lambda) && |lambda| == |roots| + 1 && |table| == Size(f) + 1 && Located(f, roots)
    requires forall j :: 0 <= j < |roots| ==> Eval(f, lambda, Alpha(f, roots[j])) == 0
    ensures AllSolvable(f, lambda, Numerators(f, table, lambda, s, roots), roots)
  {
    hide Eval, Alpha, Nonzero, Numerator, Denominator;
    forall k | 0 <= k < |roots|
      ensures Denominator(f, lambda, roots[k]) != 0
    {
      SplitIsSimple(f, lambda, roots, k);
    }
  }

  lemma {:induction false} SyndromeElems(f: GF, first: nat, a: seq<int>, s: Poly)
    requires Syndromes(f, first, a, s)
    ensures Elems(f, s)
  {
    hide Eval, Alpha;
    forall j | 0 <= j < |s|
      ensures Elem(f, s[j])
    {
      EvalElem(f, Load(f, a), Alpha(f, first + j));
    }
  }

  /** If the corrections were made, the block is a codeword exactly if the recurrence is as long as
  there are locations. */
  lemma {:induction false} CorrectedCodeword(f: GF, first: nat, fec: nat, a: seq<int>, s: Poly, table: seq<nat>, lambda: Poly,
                                      l: nat, roots: seq<nat>, after: seq<int>)
    requires Findings(f, first, fec, a, s, table, lambda, l, roots) && first + fec <= Size(f)
    requires |roots| + 1 == |lambda| && 2 * |roots| <= fec && |after| == |a| && Elems(f, lambda) && Located(f, roots)
    requires Applied(f, a, after, roots, Magnitudes(f, lambda, Numerators(f, table, lambda, s, roots), roots), |roots|)
    ensures Codeword(f, first, fec, after) <==> l == |roots|
  {
    hide Eval, Alpha, Codeword, Distance, Conv, Shortest, FirstRootFactor, Applied, Numerator, Denominator, Errors;
    var values := Magnitudes(f, lambda, Numerators(f, table, lambda, s, roots), roots);
    if l == |roots| {
      SyndromeElems(f, first, a, s);
      assert lambda[0] == 1;
      assert Split(f, first, table, lambda, s, roots, values);
      SyndromesExplained(f, first, table, lambda, s, roots, values);
      SumsMakeCodeword(f, first, a, s, roots, values);
      AppliedIsApplyAll(f, a, after, roots, values);
    } else if Codeword(f, first, fec, after) {
      AppliedOutside(f, a, after, roots, values, |roots|);
      ChangeBound(f, a, after, roots);
      LocatorFound(f, first, fec, a, after, s, table, lambda, l, roots);
    }
  }

  // ---------------------------------------------------------------------------------------
  // The decoder as a function of the block
  // ---------------------------------------------------------------------------------------

  /** What the decoder computes on its way to a result. */
  datatype Trace = Trace(syndromes: Poly, locator: Poly, length: nat, roots: seq<nat>)

  ghost function SyndromeAt(f: GF, a: seq<int>, i: nat): nat
    requires i <= Size(f)
  {
    Eval(f, Load(f, a), Alpha(f, i))
  }

  ghost function SyndromesOf(f: GF, first: nat, fec: nat, a: seq<int>): (s: Poly)
    requires first + fec <= Size(f) + 1
    ensures |s| == fec && forall j :: 0 <= j < fec ==> s[j] == SyndromeAt(f, a, first + j)
  {
    if fec == 0 then [] else SyndromesOf(f, first, fec - 1, a) + [SyndromeAt(f, a, first + fec - 1)]
  }

  /** The exponents from one to `i` at which a polynomial vanishes, in increasing order. */
  ghost function RootsUpTo(f: GF, s: Poly, i: nat): (roots: seq<nat>)
    requires i <= Size(f)
    ensures Increasing(roots) && forall k :: 0 <= k < |roots| ==> 1 <= roots[k] <= i
    ensures forall j :: j in roots <==> 1 <= j <= i && Eval(f, s, Alpha(f, j)) == 0
  {
    if i == 0 then [] else RootsUpTo(f, s, i - 1) + if Eval(f, s, Alpha(f, i)) == 0 then [i] else []
  }

  ghost function TraceOf(f: GF, first: nat, fec: nat, a: seq<int>): (t: Trace)
    requires first + fec <= Size(f) + 1
    ensures Located(f, t.roots)
  {
    var s := SyndromesOf(f, first, fec, a);
    var r := Massey(f, s, fec);
    Trace(s, r.lambda, r.length, RootsUpTo(f, r.lambda, Size(f)))
  }

  /** The locator belongs to a shortest recurrence for the syndromes, and the roots are its roots. */
  lemma {:induction false} TraceMeaning(f: GF, first: nat, fec: nat, a: seq<int>)
    requires first + fec <= Size(f) + 1
    ensures var t := TraceOf(f, first, fec, a);
            && |t.syndromes| == fec && Syndromes(f, first, a, t.syndromes) && t.length <= fec
            && Generates(f, t.locator, t.length, t.syndromes, fec) && Shortest(f, t.length, t.syndromes, fec)
            && t.locator != [] && t.locator[|t.locator| - 1] != 0 && Elems(f, t.locator) && Nonzero(t.locator)
            && RootExponents(f, t.locator, t.roots)
  {
    hide Eval, Alpha, Generates, Shortest, Massey, SyndromesOf, Syndromes, Load;
    var t := TraceOf(f, first, fec, a);
    SyndromesAre(f, first, fec, a);
    MasseyEnd(f, t.syndromes, fec);
    MasseyShape(f, t.syndromes, fec);
    assert t.locator[|t.locator| - 1] != 0;
    RootsAreExponents(f, t.locator);
  }

  lemma {:induction false} SyndromesAre(f: GF, first: nat, fec: nat, a: seq<int>)
    requires first + fec <= Size(f) + 1
    ensures Syndromes(f, first, a, SyndromesOf(f, first, fec, a))
  {
    hide Eval, Alpha, Load, SyndromesOf;
  }

  lemma {:induction false} RootsAreExponents(f: GF, s: Poly)
    ensures RootExponents(f, s, RootsUpTo(f, s, Size(f)))
  {
    hide Eval, Alpha;
    var roots := RootsUpTo(f, s, Size(f));
    forall k | 0 <= k < |roots|
      ensures Eval(f, s, Alpha(f, roots[k])) == 0
    {
      assert roots[k] in roots;
    }
  }

  /** Whatever was computed in this way is the trace. */
  lemma {:induction false} TraceUnique(f: GF, first: nat, fec: nat, a: seq<int>, s: Poly, roots: seq<nat>)
    requires first + fec <= Size(f) + 1 && |s| == fec && Syndromes(f, first, a, s)
    requires RootExponents(f, Massey(f, s, fec).lambda, roots)
    ensures TraceOf(f, first, fec, a) == Trace(s, Massey(f, s, fec).lambda, Massey(f, s, fec).length, roots)
  {
    hide Eval, Alpha, Massey, Load;
    var t := SyndromesOf(f, first, fec, a);
    assert s == t;
    var lambda := Massey(f, s, fec).lambda;
    RootsAreExponents(f, lambda);
    ExponentsUnique(f, lambda, roots, RootsUpTo(f, lambda, Size(f)));
  }

  lemma {:induction false} ExponentsUnique(f: GF, s: Poly, r: seq<nat>, q: seq<nat>)
    requires RootExponents(f, s, r) && RootExponents(f, s, q)
    ensures r == q
  {
    hide Eval, Alpha;
    IncreasingUnique(r, q);
  }

  /** What cancels the power that the first root of the code brings in. */
  ghost function RootFactor(f: GF, first: nat, x: nat): (r: nat)
    requires Elem(f, x)
    ensures Elem(f, r)
  {
    Div(f, x, Mul(f, 1, Pow(f, x, first)))
  }

  lemma {:induction false} RootFactorIs(f: GF, first: nat, x: nat, r: nat)
    requires Elem(f, x) && x != 0 && FirstRootFactor(f, x, first, r)
    ensures r == RootFactor(f, first, x)
  {
    hide Mul, Pow, Div;
    PowNonzero(f, x, first);
    MulOne(f, Pow(f, x, first));
    DivMul(f, r, Pow(f, x, first));
  }

  /** The value of Forney's formula at a location. */
  ghost function ErrorValue(f: GF, first: nat, lambda: Poly, s: Poly, loc: nat): (v: nat)
    requires Elems(f, lambda) && 1 <= loc <= Size(f)
    ensures Elem(f, v)
  {
    Magnitude(f, lambda, Numerator(f, lambda, s, RootFactor(f, first, Alpha(f, Size(f) - loc)), loc), loc)
  }

  ghost function ErrorValues(f: GF, first: nat, lambda: Poly, s: Poly, roots: seq<nat>): (vs: seq<nat>)
    requires Elems(f, lambda) && Located(f, roots)
    ensures |vs| == |roots| && Elems(f, vs)
    ensures forall k :: 0 <= k < |vs| ==> vs[k] == ErrorValue(f, first, lambda, s, roots[k])
  {
    seq(|roots|, k requires 0 <= k < |roots| => ErrorValue(f, first, lambda, s, roots[k]))
  }

  /** The values that the decoder computes with its table are those of the formula. */
  lemma {:induction false} TableValues(f: GF, first: nat, table: seq<nat>, lambda: Poly, s: Poly, roots: seq<nat>)
    requires RootTable(f, first, table) && Elems(f, lambda) && Located(f, roots)
    ensures Magnitudes(f, lambda, Numerators(f, table, lambda, s, roots), roots) == ErrorValues(f, first, lambda, s, roots)
  {
    hide Alpha, Numerator, Magnitude, RootFactor, FirstRootFactor;
    var u, v := Magnitudes(f, lambda, Numerators(f, table, lambda, s, roots), roots), ErrorValues(f, first, lambda, s, roots);
    forall k | 0 <= k < |roots|
      ensures u[k] == v[k]
    {
      var x := Alpha(f, Size(f) - roots[k]);
      assert FirstRootFactor(f, x, first, table[roots[k]]);
      RootFactorIs(f, first, x, table[roots[k]]);
    }
  }

  /** The block with the values of Forney's formula added at the roots of the locator. */
  ghost function CorrectedBlock(f: GF, first: nat, fec: nat, a: seq<int>): (r: seq<int>)
    requires |a| == Size(f) && first + fec <= Size(f) + 1
    ensures |r| == |a|
  {
    var t := TraceOf(f, first, fec, a);
    MasseyShape(f, t.syndromes, fec);
    ApplyAll(f, a, t.roots, ErrorValues(f, first, t.locator, t.syndromes, t.roots), |t.roots|)
  }

  ghost predicate AllZero(s: Poly)
  {
    forall j :: 0 <= j < |s| ==> s[j] == 0
  }

  /** There are no errors, or the locator has as many roots as its degree, at least one, and no more
  than can be corrected. */
  ghost predicate Accepted(fec: nat, t: Trace)
  {
    AllZero(t.syndromes) || (0 < |t.roots| && 2 * |t.roots| <= fec && |t.roots| + 1 == |t.locator|)
  }

  /** What the decoder does to a block: the result is true exactly if the trace is accepted, and then
  the block is the corrected one. */
  ghost predicate Explains(f: GF, first: nat, fec: nat, before: seq<int>, after: seq<int>, ok: bool)
  {
    && first + fec <= Size(f) + 1 && |before| == Size(f)
    && (ok <==> Accepted(fec, TraceOf(f, first, fec, before)))
    && (ok ==> after == CorrectedBlock(f, first, fec, before))
  }

  // ---------------------------------------------------------------------------------------
  // Why the decoder does so
  // ---------------------------------------------------------------------------------------

  lemma {:induction false} EvalOne(f: GF, x: nat)
    ensures Eval(f, [1], x) == 1
  {
    assert [1][1..] == [];
    MulZero(f, x);
    XorZero(1);
  }

  /** Vanishing syndromes make the locator trivial. */
  lemma {:induction false} CleanTrace(f: GF, first: nat, fec: nat, a: seq<int>, s: Poly)
    requires first + fec <= Size(f) + 1 && |s| == fec && Syndromes(f, first, a, s) && AllZero(s)
    ensures TraceOf(f, first, fec, a) == Trace(s, [1], 0, [])
  {
    hide Eval, Alpha, Massey, Syndromes;
    SilentRounds(f, s, fec);
    forall i | 1 <= i <= Size(f)
      ensures Eval(f, [1], Alpha(f, i)) != 0
    {
      EvalOne(f, Alpha(f, i));
    }
    TraceUnique(f, first, fec, a, s, []);
  }

  lemma {:induction false} CleanExplained(f: GF, first: nat, fec: nat, a: seq<int>, s: Poly)
    requires |a| == Size(f) && first + fec <= Size(f) + 1 && |s| == fec && Syndromes(f, first, a, s) && AllZero(s)
    ensures Explains(f, first, fec, a, a, true) && TraceOf(f, first, fec, a).roots == []
  {
    hide Eval, Alpha, Syndromes, TraceOf;
    CleanTrace(f, first, fec, a, s);
  }

  lemma {:induction false} CorrectionExplained(f: GF, first: nat, fec: nat, a: seq<int>, after: seq<int>, ok: bool, s: Poly,
                                               table: seq<nat>, l: nat, roots: seq<nat>)
    requires var lambda := Massey(f, s, fec).lambda;
             && Findings(f, first, fec, a, s, table, lambda, l, roots) && |after| == |a| && !AllZero(s)
             && Elems(f, lambda) && Nonzero(lambda) && |table| == Size(f) + 1 && first + fec <= Size(f) + 1
             && Located(f, roots) && 0 < |roots| && 2 * |roots| <= fec && (ok ==> |lambda| - 1 == |roots|)
             && (AllSolvable(f, lambda, Numerators(f, table, lambda, s, roots), roots) ==>
                   && Applied(f, a, after, roots, Magnitudes(f, lambda, Numerators(f, table, lambda, s, roots), roots), |roots|)
                   && (ok <==> |lambda| - 1 == |roots|))
    ensures Explains(f, first, fec, a, after, ok) && TraceOf(f, first, fec, a).roots == roots
    ensures ok ==> Distance(f, a, after) + ZeroCount(Numerators(f, table, Massey(f, s, fec).lambda, s, roots), |roots|) == |roots|
    ensures ok ==> AllSolvable(f, Massey(f, s, fec).lambda, Numerators(f, table, Massey(f, s, fec).lambda, s, roots), roots)
  {
    hide Eval, Alpha, Syndromes, Shortest, FirstRootFactor, Applied, Numerators, Magnitudes, AllSolvable, RootTable, Nonzero,
         Generates, Massey, ErrorValues, ApplyAll, TraceOf, RootExponents, Distance, ZeroCount;
    var lambda := Massey(f, s, fec).lambda;
    TraceUnique(f, first, fec, a, s, roots);
    if |lambda| == |roots| + 1 {
      RootsVanishHere(f, lambda, roots);
      SplitSolvable(f, table, lambda, s, roots);
      TableValues(f, first, table, lambda, s, roots);
      AppliedIsApplyAll(f, a, after, roots, ErrorValues(f, first, lambda, s, roots));
      SymbolsChanged(f, a, roots, ErrorValues(f, first, lambda, s, roots), |roots|);
      ZeroValues(f, table, lambda, s, roots, |roots|);
    }
  }

  /** One more symbol changed. */
  lemma {:induction false} DistanceUpdate(f: Field, a: seq<int>, b: seq<int>, j: nat, x: int)
    requires |a| == |b| && j < |a| && Symbol(f, b[j]) == Symbol(f, a[j])
    ensures Distance(f, a, b[j := x]) == Distance(f, a, b) + if Symbol(f, x) != Symbol(f, a[j]) then 1 else 0
    decreases |a|
  {
    hide Symbol;
    var c := b[j := x];
    if j == 0 {
      assert c[1..] == b[1..];
    } else {
      DistanceUpdate(f, a[1..], b[1..], j - 1, x);
      assert c[1..] == b[1..][j - 1 := x];
    }
  }

  lemma {:induction false} SameBlock(f: Field, a: seq<int>)
    ensures Distance(f, a, a) == 0
    decreases |a|
  {
    hide Symbol;
    if a != [] {
      SameBlock(f, a[1..]);
    }
  }

  /** Every value that is not zero changes a symbol. */
  lemma {:induction false} SymbolsChanged(f: GF, a: seq<int>, roots: seq<nat>, values: seq<nat>, k: nat)
    requires k <= |roots| == |values| && Increasing(roots) && forall i :: 0 <= i < |roots| ==> 1 <= roots[i] <= |a|
    requires Elems(f, values)
    ensures Distance(f, a, ApplyAll(f, a, roots, values, k)) + ZeroCount(values, k) == k
    decreases k
  {
    hide Symbol, SymbolXor, Distance, Xor;
    if k == 0 {
      SameBlock(f, a);
    } else {
      SymbolsChanged(f, a, roots, values, k - 1);
      ApplyAllApplies(f, a, roots, values, k - 1);
      var b, j, v := ApplyAll(f, a, roots, values, k - 1), roots[k - 1] - 1, values[k - 1];
      assert j + 1 !in roots[..k - 1];
      assert b[j] == a[j];
      DistanceUpdate(f, a, b, j, SymbolXor(f, b[j], v));
      SymbolOfXor(f, b[j], v);
      XorCancel(Symbol(f, b[j]), v);
      XorSelf(Symbol(f, b[j]));
      XorZero(Symbol(f, b[j]));
    }
  }

  /** A value is zero exactly if its numerator is. */
  lemma {:induction false} ZeroValues(f: GF, table: seq<nat>, lambda: Poly, s: Poly, roots: seq<nat>, k: nat)
    requires |table| == Size(f) + 1 && Elems(f, lambda) && Located(f, roots) && k <= |roots|
    requires AllSolvable(f, lambda, Numerators(f, table, lambda, s, roots), roots)
    ensures var ns := Numerators(f, table, lambda, s, roots); ZeroCount(Magnitudes(f, lambda, ns, roots), k) == ZeroCount(ns, k)
    decreases k
  {
    hide Numerator, Denominator, Div;
    if k > 0 {
      ZeroValues(f, table, lambda, s, roots, k - 1);
      var n := Numerators(f, table, lambda, s, roots)[k - 1];
      ZeroFraction(f, lambda, n, roots[k - 1]);
    }
  }

  lemma {:induction false} ZeroFraction(f: GF, lambda: Poly, n: nat, loc: nat)
    requires Elems(f, lambda) && Elem(f, n) && loc <= Size(f) && (n != 0 ==> Denominator(f, lambda, loc) != 0)
    ensures Magnitude(f, lambda, n, loc) == 0 <==> n == 0
  {
    hide Denominator;
    DenominatorElem(f, lambda, loc);
    if n != 0 {
      DivMul(f, n, Denominator(f, lambda, loc));
    }
  }

  lemma {:induction false} RootsVanishHere(f: GF, lambda: Poly, roots: seq<nat>)
    requires RootExponents(f, lambda, roots)
    ensures forall k :: 0 <= k < |roots| ==> 1 <= roots[k] <= Size(f) && Eval(f, lambda, Alpha(f, roots[k])) == 0
  {
    hide Eval, Alpha;
  }

  lemma {:induction false} RefusalExplained(f: GF, first: nat, fec: nat, a: seq<int>, s: Poly, table: seq<nat>, l: nat,
                                            roots: seq<nat>)
    requires Findings(f, first, fec, a, s, table, Massey(f, s, fec).lambda, l, roots) && !AllZero(s)
    requires first + fec <= Size(f) + 1 && (|roots| == 0 || 2 * |roots| > fec)
    ensures Explains(f, first, fec, a, a, false) && TraceOf(f, first, fec, a).roots == roots
  {
    hide Eval, Alpha, Syndromes, Shortest, RootTable, Generates, Massey, RootExponents, TraceOf, CorrectedBlock;
    TraceUnique(f, first, fec, a, s, roots);
  }

  // ---------------------------------------------------------------------------------------
  // What a true result means
  // ---------------------------------------------------------------------------------------

  /** A block of a true result is a codeword exactly if the recurrence is as long as the degree of its
  locator. */
  lemma {:induction false} TrueResult(f: GF, first: nat, fec: nat, a: seq<int>)
    requires |a| == Size(f) && first + fec <= Size(f) && Accepted(fec, TraceOf(f, first, fec, a))
    ensures var t := TraceOf(f, first, fec, a);
            Codeword(f, first, fec, CorrectedBlock(f, first, fec, a)) <==> t.length + 1 == |t.locator|
  {
    hide Eval, Alpha, Codeword, Syndromes, Shortest, Generates, RootExponents, TraceOf, ErrorValues, ApplyAll, Nonzero;
    var t := TraceOf(f, first, fec, a);
    TraceMeaning(f, first, fec, a);
    if AllZero(t.syndromes) {
      CleanTrace(f, first, fec, a, t.syndromes);
      NoneApplied(f, a, ErrorValues(f, first, t.locator, t.syndromes, []));
      CleanIsCodeword(f, first, fec, a, t.syndromes);
    } else {
      var table := TableFor(f, first);
      TableForIs(f, first);
      var values := ErrorValues(f, first, t.locator, t.syndromes, t.roots);
      TableValues(f, first, table, t.locator, t.syndromes, t.roots);
      ApplyAllApplies(f, a, t.roots, values, |t.roots|);
      CorrectedCodeword(f, first, fec, a, t.syndromes, table, t.locator, t.length, t.roots, CorrectedBlock(f, first, fec, a));
    }
  }

  lemma {:induction false} NoneApplied(f: Field, a: seq<int>, values: seq<nat>)
    requires values == []
    ensures ApplyAll(f, a, [], values, 0) == a
  {
  }

  lemma {:induction false} CleanIsCodeword(f: GF, first: nat, fec: nat, a: seq<int>, s: Poly)
    requires |s| == fec && Syndromes(f, first, a, s) && AllZero(s) && first + fec <= Size(f)
    ensures Codeword(f, first, fec, a)
  {
    hide Eval, Alpha, Load;
    forall j | first <= j < first + fec
      ensures Eval(f, Load(f, a), Alpha(f, j)) == 0
    {
      assert s[j - first] == 0;
    }
  }

  ghost function FactorAt(f: GF, first: nat, i: nat): nat
    requires i <= Size(f)
  {
    RootFactor(f, first, Alpha(f, Size(f) - i))
  }

  /** The first entries of the table that the decoder builds, as a value. */
  ghost function TableUpTo(f: GF, first: nat, n: nat): (table: seq<nat>)
    requires n <= Size(f) + 1
    ensures |table| == n && forall i :: 0 <= i < n ==> table[i] == FactorAt(f, first, i)
  {
    if n == 0 then [] else TableUpTo(f, first, n - 1) + [FactorAt(f, first, n - 1)]
  }

  ghost function TableFor(f: GF, first: nat): seq<nat>
  {
    TableUpTo(f, first, Size(f) + 1)
  }

  lemma {:induction false} TableForIs(f: GF, first: nat)
    ensures RootTable(f, first, TableFor(f, first))
  {
    hide Alpha, RootFactor, FirstRootFactor, TableUpTo;
    forall i | 0 <= i <= Size(f)
      ensures FirstRootFactor(f, Alpha(f, Size(f) - i), first, TableFor(f, first)[i])
    {
      FactorExists(f, first, Alpha(f, Size(f) - i));
      assert TableFor(f, first)[i] == FactorAt(f, first, i);
    }
  }

  lemma {:induction false} FactorExists(f: GF, first: nat, x: nat)
    requires Elem(f, x) && x != 0
    ensures FirstRootFactor(f, x, first, RootFactor(f, first, x))
  {
    hide Mul, Pow, Div;
    PowNonzero(f, x, first);
    MulOne(f, Pow(f, x, first));
    DivMul(f, x, Pow(f, x, first));
  }

  // ---------------------------------------------------------------------------------------
  // Within reach of a codeword
  // ---------------------------------------------------------------------------------------

  lemma {:induction false} TraceFindings(f: GF, first: nat, fec: nat, a: seq<int>)
    requires |a| == Size(f) && first + fec <= Size(f) + 1
    ensures var t := TraceOf(f, first, fec, a);
            && Findings(f, first, fec, a, t.syndromes, TableFor(f, first), t.locator, t.length, t.roots)
            && |TableFor(f, first)| == Size(f) + 1 && Elems(f, t.locator)
  {
    hide Eval, Alpha, Syndromes, Generates, Shortest, RootExponents, TraceOf, FirstRootFactor, TableFor;
    TraceMeaning(f, first, fec, a);
    TableForIs(f, first);
  }

  lemma {:induction false} DistanceToSame(f: Field, a: seq<int>, b: seq<int>, c: seq<int>)
    requires |a| == |b| == |c| && forall i :: 0 <= i < |b| ==> Symbol(f, b[i]) == Symbol(f, c[i])
    ensures Distance(f, a, b) == Distance(f, a, c)
    decreases |a|
  {
    hide Symbol;
    if a != [] {
      DistanceToSame(f, a[1..], b[1..], c[1..]);
    }
  }

  /** A block within reach of a codeword is accepted and corrected to it, with as many roots as errors. */
  lemma {:induction false} WithinReachAccepted(f: GF, first: nat, fec: nat, a: seq<int>, c: seq<int>)
    requires first + fec <= Size(f) + 1 && Correctable(f, first, fec, a, c)
    ensures Accepted(fec, TraceOf(f, first, fec, a)) && |TraceOf(f, first, fec, a).roots| == Distance(f, a, c)
    ensures Restores(f, a, CorrectedBlock(f, first, fec, a), c)
    ensures Distance(f, a, CorrectedBlock(f, first, fec, a)) == Distance(f, a, c)
  {
    hide Eval, Alpha, Codeword, Syndromes, TraceOf, ErrorValues, ApplyAll, Distance, Findings, TableFor, Elems, Symbol, Numerators,
         Magnitudes, AllSolvable, ZeroCount, Applied;
    var t := TraceOf(f, first, fec, a);
    TraceFindings(f, first, fec, a);
    TraceMeaning(f, first, fec, a);
    if AllZero(t.syndromes) {
      CleanTrace(f, first, fec, a, t.syndromes);
      ZeroSyndromes(f, first, fec, a, c, t.syndromes);
      NoneApplied(f, a, ErrorValues(f, first, t.locator, t.syndromes, []));
    } else {
      ErrorsFound(f, first, fec, a, c, t.syndromes, TableFor(f, first), t.locator, t.length, t.roots);
      ErrorsNoticed(f, first, fec, a, c, t.syndromes);
      TableForIs(f, first);
      TableValues(f, first, TableFor(f, first), t.locator, t.syndromes, t.roots);
      ApplyAllApplies(f, a, t.roots, ErrorValues(f, first, t.locator, t.syndromes, t.roots), |t.roots|);
      CodewordRestored(f, first, fec, a, c, t.syndromes, TableFor(f, first), t.locator, t.length, t.roots,
                       CorrectedBlock(f, first, fec, a));
    }
    DistanceToSame(f, a, CorrectedBlock(f, first, fec, a), c);
  }

  /** The decoder refuses a block only when no codeword is within reach of it. */
  lemma {:induction false} OutOfReach(f: GF, first: nat, fec: nat, a: seq<int>)
    requires |a| == Size(f) && first + fec <= Size(f) + 1 && !Accepted(fec, TraceOf(f, first, fec, a))
    ensures forall c :: !Correctable(f, first, fec, a, c)
  {
    hide Correctable, Accepted, TraceOf;
    forall c
      ensures !Correctable(f, first, fec, a, c)
    {
      if Correctable(f, first, fec, a, c) {
        WithinReachAccepted(f, first, fec, a, c);
      }
    }
  }
}
