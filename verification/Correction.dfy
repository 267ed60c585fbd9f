/** What the decoder's intermediate results mean when a codeword has been altered in a few places. */
module Correction {
  import opened Bits
  import opened GaloisField
  import opened Polynomial
  import opened Roots
  import opened Locator
  import opened Encoder

  // ---------------------------------------------------------------------------------------
  // Errors and their positions
  // ---------------------------------------------------------------------------------------

  /** In how many of its symbols a block differs from another. */
  ghost function Distance(f: Field, a: seq<int>, b: seq<int>): (d: nat)
    requires |a| == |b|
    ensures d <= |a|
  {
    if a == [] then 0
    else Distance(f, a[1..], b[1..]) + if Symbol(f, a[0]) != Symbol(f, b[0]) then 1 else 0
  }

  /** The positions below `k` of the non-zero coefficients. */
  ghost function Positions(e: Poly, k: nat): (ps: seq<nat>)
    requires k <= |e|
    ensures forall i :: 0 <= i < |ps| ==> ps[i] < k && e[ps[i]] != 0
    ensures forall p :: 0 <= p < k && e[p] != 0 ==> p in ps
    ensures Increasing(ps)
  {
    if k == 0 then []
    else if e[k - 1] != 0 then Positions(e, k - 1) + [k - 1]
    else Positions(e, k - 1)
  }

  predicate Increasing(s: seq<nat>) {
    forall i, j :: 0 <= i < j < |s| ==> s[i] < s[j]
  }

  ghost function ErrorPoly(f: Field, a: seq<int>, b: seq<int>): (e: Poly)
    requires |a| == |b|
    ensures |e| == |a|
  {
    Sum(Load(f, a), Load(f, b))
  }

  lemma {:induction false} ErrorPolyAt(f: Field, a: seq<int>, b: seq<int>, p: nat)
    requires |a| == |b| && p < |a|
    ensures var i := |a| - 1 - p;
            && ErrorPoly(f, a, b)[p] == Xor(Symbol(f, a[i]), Symbol(f, b[i]))
            && Elem(f, ErrorPoly(f, a, b)[p])
            && (ErrorPoly(f, a, b)[p] == 0 <==> Symbol(f, a[i]) == Symbol(f, b[i]))
  {
    hide Xor, Symbol;
    var e, i := ErrorPoly(f, a, b), |a| - 1 - p;
    assert e[p] == At(e, p);
    XorBound(Symbol(f, a[i]), Symbol(f, b[i]), f.power);
    XorZeroEqual(Symbol(f, a[i]), Symbol(f, b[i]));
  }

  lemma {:induction false} PositionsStep(e: Poly, k: nat)
    requires 0 < k <= |e|
    ensures Positions(e, k) == Positions(e, k - 1) + if e[k - 1] != 0 then [k - 1] else []
  {
  }

  lemma {:induction false} PositionsCount(f: Field, a: seq<int>, b: seq<int>, k: nat)
    requires |a| == |b| && k <= |a|
    ensures |Positions(ErrorPoly(f, a, b), k)| == Distance(f, a[|a| - k..], b[|a| - k..])
    decreases k
  {
    hide Symbol, ErrorPoly;
    if k == 0 {
      assert a[|a|..] == [] && b[|a|..] == [];
    } else {
      hide Positions, Distance;
      PositionsCount(f, a, b, k - 1);
      PositionsStep(ErrorPoly(f, a, b), k);
      ErrorPolyAt(f, a, b, k - 1);
      SuffixStep(f, a, b, |a| - k);
    }
  }

  lemma {:induction false} SuffixStep(f: Field, a: seq<int>, b: seq<int>, i: nat)
    requires |a| == |b| && i < |a|
    ensures Distance(f, a[i..], b[i..])
         == Distance(f, a[i + 1..], b[i + 1..]) + if Symbol(f, a[i]) != Symbol(f, b[i]) then 1 else 0
  {
    hide Symbol;
    assert a[i..][1..] == a[i + 1..] && b[i..][1..] == b[i + 1..];
  }

  // ---------------------------------------------------------------------------------------
  // Syndromes as sums of geometric series
  // ---------------------------------------------------------------------------------------

  ghost function ErrorTerm(f: GF, e: Poly, first: nat, p: nat): Term
    requires p < |e| && p <= Size(f)
  {
    Term(Alpha(f, p), Mul(f, e[p], Pow(f, Alpha(f, p), first)))
  }

  ghost function ErrorTerms(f: GF, e: Poly, first: nat, ps: seq<nat>): (ts: seq<Term>)
    requires forall i :: 0 <= i < |ps| ==> ps[i] < |e| && ps[i] <= Size(f)
    ensures |ts| == |ps|
    ensures forall i :: 0 <= i < |ps| ==> ts[i] == ErrorTerm(f, e, first, ps[i])
  {
    seq(|ps|, i requires 0 <= i < |ps| => ErrorTerm(f, e, first, ps[i]))
  }

  lemma {:induction false} TermSumSnoc(f: GF, ts: seq<Term>, t: Term, m: nat)
    ensures TermSum(f, ts + [t], m) == Xor(TermSum(f, ts, m), Mul(f, t.w, Pow(f, t.x, m)))
    decreases |ts|
  {
    hide Xor, Mul, Pow;
    var a := Mul(f, t.w, Pow(f, t.x, m));
    if ts == [] {
      assert ts + [t] == [t];
      assert TermSum(f, [t][1..], m) == 0;
      XorZero(a);
    } else {
      assert (ts + [t])[1..] == ts[1..] + [t];
      TermSumSnoc(f, ts[1..], t, m);
      XorAssoc(Mul(f, ts[0].w, Pow(f, ts[0].x, m)), TermSum(f, ts[1..], m), a);
    }
  }

  /** One coefficient of the error polynomial, evaluated at a root of the code, is one term. */
  lemma {:induction false} CoefficientTerm(f: GF, c: nat, p: nat, first: nat, j: nat)
    requires p <= Size(f) && first + j <= Size(f)
    ensures Mul(f, Pow(f, Alpha(f, first + j), p), c)
         == Mul(f, Mul(f, c, Pow(f, Alpha(f, p), first)), Pow(f, Alpha(f, p), j))
  {
    hide Mul, Pow, Alpha;
    AlphaIsPower(f, p);
    AlphaIsPower(f, first + j);
    PowPow(f, 2, first + j, p);
    var x := Alpha(f, p);
    PowAdd(f, x, first, j);
    MulComm(f, Mul(f, Pow(f, x, first), Pow(f, x, j)), c);
    MulAssoc(f, c, Pow(f, x, first), Pow(f, x, j));
  }

  lemma {:induction false} EvalIsTermSum(f: GF, e: Poly, first: nat, j: nat, k: nat)
    requires Elems(f, e) && k <= |e| && |e| <= Size(f) && first + j <= Size(f)
    ensures Eval(f, e[..k], Alpha(f, first + j)) == TermSum(f, ErrorTerms(f, e, first, Positions(e, k)), j)
    decreases k
  {
    hide Xor, Mul, Pow, Alpha;
    if k > 0 {
      EvalIsTermSum(f, e, first, j, k - 1);
      NextTerm(f, e, first, j, k);
    }
  }

  lemma {:induction false} NextTerm(f: GF, e: Poly, first: nat, j: nat, k: nat)
    requires Elems(f, e) && 0 < k <= |e| && |e| <= Size(f) && first + j <= Size(f)
    requires Eval(f, e[..k - 1], Alpha(f, first + j)) == TermSum(f, ErrorTerms(f, e, first, Positions(e, k - 1)), j)
    ensures Eval(f, e[..k], Alpha(f, first + j)) == TermSum(f, ErrorTerms(f, e, first, Positions(e, k)), j)
  {
    hide Xor, Mul, Pow, Alpha, Positions, Eval, TermSum;
    var x, c := Alpha(f, first + j), e[k - 1];
    assert e[..k] == e[..k - 1] + [c];
    EvalSnoc(f, e[..k - 1], c, x);
    PositionsStep(e, k);
    var ps := Positions(e, k - 1);
    if c != 0 {
      CoefficientTerm(f, c, k - 1, first, j);
      var t := ErrorTerm(f, e, first, k - 1);
      assert ErrorTerms(f, e, first, ps + [k - 1]) == ErrorTerms(f, e, first, ps) + [t];
      TermSumSnoc(f, ErrorTerms(f, e, first, ps), t, j);
    } else {
      assert Positions(e, k) == ps;
      MulZero(f, Pow(f, x, k - 1));
      XorZero(Eval(f, e[..k - 1], x));
    }
  }

  ghost predicate Syndromes(f: GF, first: nat, data: seq<int>, s: Poly) {
    && first + |s| <= Size(f) + 1
    && forall j :: 0 <= j < |s| ==> s[j] == Eval(f, Load(f, data), Alpha(f, first + j))
  }

  /** The errors in `a` relative to the codeword `c`, as geometric series. */
  ghost function Errors(f: GF, first: nat, a: seq<int>, c: seq<int>): (ts: seq<Term>)
    requires |a| == |c| && |a| <= Size(f)
    ensures |ts| == |Positions(ErrorPoly(f, a, c), |a|)|
  {
    var e := ErrorPoly(f, a, c);
    ErrorTerms(f, e, first, Positions(e, |a|))
  }

  lemma {:induction false} ErrorsAreSeries(f: GF, first: nat, a: seq<int>, c: seq<int>)
    requires |a| == |c| && |a| <= Size(f)
    ensures Series(f, Errors(f, first, a, c))
    ensures forall i :: 0 <= i < |Errors(f, first, a, c)| ==> Errors(f, first, a, c)[i].w != 0
    ensures |Errors(f, first, a, c)| == Distance(f, a, c)
  {
    hide Mul, Pow, Alpha, ErrorPoly, Distance;
    var e := ErrorPoly(f, a, c);
    var ps := Positions(e, |a|);
    var ts := Errors(f, first, a, c);
    forall i | 0 <= i < |ts|
      ensures Elem(f, ts[i].x) && ts[i].x != 0 && Elem(f, ts[i].w) && ts[i].w != 0
    {
      var p := ps[i];
      assert p in ps;
      ErrorPolyAt(f, a, c, p);
      PowNonzero(f, Alpha(f, p), first);
      MulNonzero(f, e[p], Pow(f, Alpha(f, p), first));
    }
    forall i, j | 0 <= i < j < |ts|
      ensures ts[i].x != ts[j].x
    {
      assert ps[i] in ps && ps[j] in ps;
      if ts[i].x == ts[j].x {
        AlphaInjective(f, ps[i], ps[j]);
      }
    }
    PositionsCount(f, a, c, |a|);
    assert a[0..] == a && c[0..] == c;
  }

  /** The syndromes of an altered codeword are the sums of its errors. */
  lemma {:induction false} SyndromesAreSums(f: GF, first: nat, fec: nat, a: seq<int>, c: seq<int>, s: Poly)
    requires |a| == |c| && |a| <= Size(f)
    requires Codeword(f, first, fec, c) && |s| == fec && Syndromes(f, first, a, s)
    ensures Sums(f, Errors(f, first, a, c), s)
  {
    hide Xor, Mul, Pow, Alpha, Eval, Load, TermSum, ErrorTerms, Symbol;
    var e := ErrorPoly(f, a, c);
    assert Elems(f, e) by {
      forall p | 0 <= p < |e|
        ensures Elem(f, e[p])
      {
        ErrorPolyAt(f, a, c, p);
      }
    }
    forall j | 0 <= j < |s|
      ensures s[j] == TermSum(f, Errors(f, first, a, c), j)
    {
      var x := Alpha(f, first + j);
      EvalIsTermSum(f, e, first, j, |a|);
      assert e[..|a|] == e;
      EvalSum(f, Load(f, a), Load(f, c), x);
      assert Eval(f, Load(f, c), x) == 0;
      XorZero(s[j]);
    }
  }

  // ---------------------------------------------------------------------------------------
  // Locations
  // ---------------------------------------------------------------------------------------

  ghost predicate Within(s: seq<nat>, t: seq<nat>) {
    forall k :: 0 <= k < |s| ==> s[k] in t
  }

  lemma {:induction false} WithinLast(s: seq<nat>, t: seq<nat>)
    requires Increasing(t) && Within(s, t) && |s| > 0
    ensures |t| > 0 && s[|s| - 1] <= t[|t| - 1]
  {
    var m := |s| - 1;
    assert s[m] in t;
  }

  lemma {:induction false} WithinDropLast(s: seq<nat>, t: seq<nat>)
    requires Increasing(s) && Increasing(t) && |s| > 0 && |t| > 0 && s[|s| - 1] == t[|t| - 1]
    requires Within(s, t)
    ensures Within(s[..|s| - 1], t[..|t| - 1])
  {
    var m, n := |s| - 1, |t| - 1;
    forall k | 0 <= k < m
      ensures s[..m][k] in t[..n]
    {
      var j :| 0 <= j < |t| && t[j] == s[k];
      assert s[k] < s[m];
      assert t[..n][j] == s[k];
    }
  }

  /** Two increasing sequences with the same elements are equal. */
  lemma {:induction false} IncreasingUnique(s: seq<nat>, t: seq<nat>)
    requires Increasing(s) && Increasing(t) && Within(s, t) && Within(t, s)
    ensures s == t
    decreases |s|
  {
    hide Within;
    if |s| > 0 {
      WithinLast(s, t);
      WithinLast(t, s);
      var m, n := |s| - 1, |t| - 1;
      WithinDropLast(s, t);
      WithinDropLast(t, s);
      IncreasingUnique(s[..m], t[..n]);
      assert s == s[..m] + [s[m]] && t == t[..n] + [t[n]];
    } else if |t| > 0 {
      WithinLast(t, s);
    }
  }

  /** The exponents, counted from one, at which the locator of errors at `ps` vanishes. */
  ghost function Locations(ps: seq<nat>, n: nat): (ls: seq<nat>)
    requires forall i :: 0 <= i < |ps| ==> ps[i] < n
    ensures |ls| == |ps|
    ensures forall i :: 0 <= i < |ps| ==> ls[i] == n - ps[|ps| - 1 - i]
  {
    seq(|ps|, i requires 0 <= i < |ps| => n - ps[|ps| - 1 - i])
  }

  lemma {:induction false} InverseIsAlpha(f: GF, p: nat)
    requires p < Size(f)
    ensures Inv(f, Alpha(f, p)) == Alpha(f, Size(f) - p)
  {
    hide Mul, Alpha, Inv;
    var x, y, z := Alpha(f, p), Inv(f, Alpha(f, p)), Alpha(f, Size(f) - p);
    AlphaInverse(f, p);
    InvMul(f, x);
    MulAssoc(f, y, x, z);
    MulOne(f, y);
    MulOne(f, z);
  }

  /** `roots` lists, in increasing order, the exponents at which `lambda` vanishes. */
  ghost predicate RootExponents(f: GF, lambda: Poly, roots: seq<nat>) {
    && Increasing(roots)
    && (forall k :: 0 <= k < |roots| ==> 1 <= roots[k] <= Size(f) && Eval(f, lambda, Alpha(f, roots[k])) == 0)
    && (forall i :: 1 <= i <= Size(f) && Eval(f, lambda, Alpha(f, i)) == 0 ==> i in roots)
  }

  /** The error at position `ps[k]` makes the polynomial vanish at the exponent `n - ps[k]`. */
  lemma {:induction false} LocationIsRoot(f: GF, ts: seq<Term>, ps: seq<nat>, k: nat)
    requires |ts| == |ps| && k < |ps| && Series(f, ts) && ps[k] < Size(f) && ts[k].x == Alpha(f, ps[k])
    ensures Inverses(f, ts)[k] == Alpha(f, Size(f) - ps[k])
  {
    InverseIsAlpha(f, ps[k]);
  }

  /** If a polynomial vanishes exactly at the inverses of the error ratios, the exponents at which
  it vanishes are the error locations. */
  lemma {:induction false} RootsAreLocations(f: GF, lambda: Poly, roots: seq<nat>, ts: seq<Term>, ps: seq<nat>)
    requires RootExponents(f, lambda, roots) && Series(f, ts) && Increasing(ps) && |ts| == |ps|
    requires forall k :: 0 <= k < |ps| ==> ps[k] < Size(f) && ts[k].x == Alpha(f, ps[k])
    requires AllRoots(f, lambda, Inverses(f, ts))
    requires forall r :: Elem(f, r) && Eval(f, lambda, r) == 0 ==> r in Inverses(f, ts)
    ensures roots == Locations(ps, Size(f))
  {
    hide Alpha, Eval, Series, Within;
    var ls := Locations(ps, Size(f));
    LocationsWithinRoots(f, lambda, roots, ts, ps);
    RootsWithinLocations(f, lambda, roots, ts, ps);
    IncreasingUnique(roots, ls);
  }

  lemma {:induction false} LocationsWithinRoots(f: GF, lambda: Poly, roots: seq<nat>, ts: seq<Term>, ps: seq<nat>)
    requires RootExponents(f, lambda, roots) && Series(f, ts) && |ts| == |ps|
    requires forall k :: 0 <= k < |ps| ==> ps[k] < Size(f) && ts[k].x == Alpha(f, ps[k])
    requires AllRoots(f, lambda, Inverses(f, ts))
    ensures Within(Locations(ps, Size(f)), roots)
  {
    hide Alpha, Eval, Series, Inv;
    var ls := Locations(ps, Size(f));
    forall k | 0 <= k < |ls|
      ensures ls[k] in roots
    {
      LocationIsRoot(f, ts, ps, |ps| - 1 - k);
      assert Eval(f, lambda, Inverses(f, ts)[|ps| - 1 - k]) == 0;
    }
  }

  lemma {:induction false} RootsWithinLocations(f: GF, lambda: Poly, roots: seq<nat>, ts: seq<Term>, ps: seq<nat>)
    requires RootExponents(f, lambda, roots) && Series(f, ts) && |ts| == |ps|
    requires forall k :: 0 <= k < |ps| ==> ps[k] < Size(f) && ts[k].x == Alpha(f, ps[k])
    requires forall r :: Elem(f, r) && Eval(f, lambda, r) == 0 ==> r in Inverses(f, ts)
    ensures Within(roots, Locations(ps, Size(f)))
  {
    hide Alpha, Eval, Series, Inv;
    forall k | 0 <= k < |roots|
      ensures roots[k] in Locations(ps, Size(f))
    {
      RootIsLocation(f, ts, ps, roots[k]);
    }
  }

  lemma {:induction false} RootIsLocation(f: GF, ts: seq<Term>, ps: seq<nat>, i: nat)
    requires Series(f, ts) && |ts| == |ps| && 1 <= i <= Size(f)
    requires forall k :: 0 <= k < |ps| ==> ps[k] < Size(f) && ts[k].x == Alpha(f, ps[k])
    requires Alpha(f, i) in Inverses(f, ts)
    ensures i in Locations(ps, Size(f))
  {
    hide Alpha, Series, Inv;
    var k :| 0 <= k < |ts| && Inverses(f, ts)[k] == Alpha(f, i);
    LocationIsRoot(f, ts, ps, k);
    AlphaInjectiveUp(f, i, Size(f) - ps[k]);
    assert Locations(ps, Size(f))[|ps| - 1 - k] == i;
  }

  lemma {:induction false} AlphaInjectiveUp(f: GF, i: nat, j: nat)
    requires 1 <= i <= Size(f) && 1 <= j <= Size(f) && Alpha(f, i) == Alpha(f, j)
    ensures i == j
  {
    var n := Size(f);
    AlphaInjective(f, if i == n then 0 else i, if j == n then 0 else j);
  }
}
