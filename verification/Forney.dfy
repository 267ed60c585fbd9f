/** Forney's formula: the error values from the locator and the syndromes. */
module Forney {
  import opened Bits
  import opened GaloisField
  import opened Polynomial
  import opened Roots
  import opened FieldPolynomial
  import opened Locator
  import opened BerlekampMassey
  import opened Encoder
  import opened Correction

  // ---------------------------------------------------------------------------------------
  // Values
  // ---------------------------------------------------------------------------------------

  /** The numerator and denominator of Forney's formula at the exponent `loc`. */
  ghost function Numerator(f: GF, lambda: Poly, s: Poly, rootExponent: nat, loc: nat): (r: nat)
    requires loc <= Size(f)
    ensures Elem(f, r)
  {
    Mul(f, Eval(f, PrefixProduct(f, lambda, s, |s|), Alpha(f, loc)), rootExponent)
  }

  ghost function Denominator(f: GF, lambda: Poly, loc: nat): nat
    requires loc <= Size(f)
  {
    Eval(f, Derivative(lambda), Alpha(f, loc))
  }

  lemma {:induction false} DerivativeElems(f: GF, s: Poly)
    requires Elems(f, s)
    ensures Elems(f, Derivative(s))
    decreases |s|
  {
    if |s| > 1 {
      DerivativeElems(f, s[2..]);
    }
  }

  /** `((e x^b)(y q)) r = e q` when `x y = 1` and `r x^b = x`. */
  lemma {:induction false} CancelPowers(f: GF, e: nat, xb: nat, x: nat, y: nat, q: nat, r: nat)
    requires Mul(f, x, y) == 1 && Mul(f, r, xb) == x && Elem(f, e) && Elem(f, q)
    ensures Mul(f, Mul(f, Mul(f, e, xb), Mul(f, y, q)), r) == Mul(f, e, q)
  {
    hide Mul;
    var yq := Mul(f, y, q);
    // ((e xb) yq) r = e ((xb yq) r) = e ((r xb) yq)
    MulAssoc(f, e, xb, yq);
    MulAssoc(f, e, Mul(f, xb, yq), r);
    MulComm(f, Mul(f, xb, yq), r);
    MulAssoc(f, r, xb, yq);
    MulAssoc(f, x, y, q);
    MulOne(f, q);
  }

  /** Forney's formula at the inverse of the ratio of one series gives back its weight, freed from
  the power of the ratio that the first root of the code contributes. */
  lemma {:induction false} ForneyValue(f: GF, lambda: Poly, s: Poly, ts: seq<Term>, i: nat, first: nat, v: nat, r: nat, loc: nat)
    requires Elems(f, lambda) && Nonzero(lambda) && |lambda| <= |s| + 1
    requires Series(f, ts) && Sums(f, ts, s) && i < |ts| == |lambda| - 1 && loc <= Size(f)
    requires AllRoots(f, lambda, Inverses(f, ts))
    requires Elem(f, v) && v != 0 && ts[i].w == Mul(f, v, Pow(f, ts[i].x, first))
    requires Inv(f, ts[i].x) == Alpha(f, loc) && Mul(f, r, Pow(f, ts[i].x, first)) == ts[i].x
    ensures Elem(f, Denominator(f, lambda, loc)) && Denominator(f, lambda, loc) != 0
    ensures Numerator(f, lambda, s, r, loc) != 0
    ensures Div(f, Numerator(f, lambda, s, r, loc), Denominator(f, lambda, loc)) == v
  {
    hide Xor, Mul, Alpha, Inv, Eval, Pow, Div, Sums;
    var x := ts[i].x;
    var y := Inv(f, x);
    var q := Eval(f, Quotient(f, lambda, y), y);
    InvMul(f, x);
    DerivativeAtRoot(f, lambda, y);
    SimpleRoot(f, lambda, ts, i);
    DerivativeElems(f, lambda);
    EvalElem(f, Derivative(lambda), y);
    RootsVanish(f, lambda, ts);
    EvaluatorValue(f, lambda, ts, s, y);
    EvaluatorAtRoot(f, lambda, ts, i);
    CancelPowers(f, v, Pow(f, x, first), x, y, q, r);
    DivMul(f, v, q);
    MulNonzero(f, v, q);
  }

  lemma {:induction false} RootsVanish(f: GF, lambda: Poly, ts: seq<Term>)
    requires Series(f, ts) && AllRoots(f, lambda, Inverses(f, ts))
    ensures forall j :: 0 <= j < |ts| ==> Eval(f, lambda, Inv(f, ts[j].x)) == 0
  {
    hide Inv, Eval;
    forall j | 0 <= j < |ts|
      ensures Eval(f, lambda, Inv(f, ts[j].x)) == 0
    {
      assert Inverses(f, ts)[j] == Inv(f, ts[j].x);
    }
  }

  /** `r` is `x` to the power `1 - first`. */
  ghost predicate FirstRootFactor(f: GF, x: nat, first: nat, r: nat) {
    Elem(f, r) && Mul(f, r, Pow(f, x, first)) == x
  }

  // ---------------------------------------------------------------------------------------
  // Adding the values to the block
  // ---------------------------------------------------------------------------------------

  /** Exclusive-or of a machine integer with a field element: only the low bits change. */
  function SymbolXor(f: Field, v: int, e: nat): int {
    v - Symbol(f, v) + Xor(Symbol(f, v), e)
  }

  lemma {:induction false} ReplaceLow(v: int, n: nat, z: nat)
    requires z < n
    ensures (v - v % n + z) % n == z
  {
    var q := v / n;
    assert v - v % n + z == q * n + z;
    ModUnique(v - v % n + z, n, q, z);
  }

  lemma {:induction false} SymbolIsResidue(f: Field, v: int)
    ensures Symbol(f, v) == v % Pow2(f.power)
  {
    if 0 <= v < Pow2(f.power) {
      ModSmall(v, Pow2(f.power));
    }
  }

  lemma {:induction false} SymbolOfXor(f: Field, v: int, e: nat)
    requires Elem(f, e)
    ensures Symbol(f, SymbolXor(f, v, e)) == Xor(Symbol(f, v), e)
  {
    hide Xor, Pow2, Symbol;
    SymbolIsResidue(f, v);
    SymbolIsResidue(f, SymbolXor(f, v, e));
    XorBound(Symbol(f, v), e, f.power);
    ReplaceLow(v, Pow2(f.power), Xor(Symbol(f, v), e));
  }

  /** The symbols at the first `i` locations have had their values added, and no others. */
  ghost predicate Applied(f: Field, before: seq<int>, after: seq<int>, locations: seq<nat>, values: seq<nat>, i: nat)
    requires i <= |locations| == |values| && |before| == |after|
    requires forall k :: 0 <= k < |locations| ==> 1 <= locations[k] <= |before|
  {
    && (forall k :: 0 <= k < i ==> after[locations[k] - 1] == SymbolXor(f, before[locations[k] - 1], values[k]))
    && (forall j :: 0 <= j < |after| && j + 1 !in locations[..i] ==> after[j] == before[j])
  }

  lemma {:induction false} ApplyNext(f: Field, before: seq<int>, after: seq<int>, locations: seq<nat>, values: seq<nat>, i: nat)
    requires i < |locations| == |values| && |before| == |after| && Increasing(locations)
    requires forall k :: 0 <= k < |locations| ==> 1 <= locations[k] <= |before|
    requires Applied(f, before, after, locations, values, i)
    ensures var j := locations[i] - 1;
            Applied(f, before, after[j := SymbolXor(f, after[j], values[i])], locations, values, i + 1)
  {
    hide SymbolXor;
    assert locations[i] !in locations[..i];
    assert locations[..i + 1] == locations[..i] + [locations[i]];
  }

  ghost function Magnitude(f: GF, lambda: Poly, numerator: nat, loc: nat): (v: nat)
    requires Elems(f, lambda) && Elem(f, numerator) && loc <= Size(f)
    ensures Elem(f, v)
  {
    DenominatorElem(f, lambda, loc);
    Div(f, numerator, Denominator(f, lambda, loc))
  }

  lemma {:induction false} DenominatorElem(f: GF, lambda: Poly, loc: nat)
    requires Elems(f, lambda) && loc <= Size(f)
    ensures Elem(f, Denominator(f, lambda, loc))
  {
    DerivativeElems(f, lambda);
    EvalElem(f, Derivative(lambda), Alpha(f, loc));
  }

  /** The numerators of Forney's formula at all locations. */
  ghost function Numerators(f: GF, table: seq<nat>, lambda: Poly, syndrome: Poly, locations: seq<nat>): (ns: seq<nat>)
    requires |table| == Size(f) + 1
    requires forall k :: 0 <= k < |locations| ==> locations[k] <= Size(f)
    ensures |ns| == |locations| && Elems(f, ns)
    ensures forall k :: 0 <= k < |ns| ==>
              ns[k] == Numerator(f, lambda, syndrome, table[locations[k]], locations[k])
  {
    seq(|locations|, k requires 0 <= k < |locations| =>
      Numerator(f, lambda, syndrome, table[locations[k]], locations[k]))
  }

  /** The error values that Forney's formula gives at all locations. */
  ghost function Magnitudes(f: GF, lambda: Poly, ns: seq<nat>, locations: seq<nat>): (vs: seq<nat>)
    requires Elems(f, lambda) && Elems(f, ns) && |ns| == |locations|
    requires forall k :: 0 <= k < |locations| ==> locations[k] <= Size(f)
    ensures |vs| == |locations|
    ensures forall k :: 0 <= k < |vs| ==> vs[k] == Magnitude(f, lambda, ns[k], locations[k])
  {
    seq(|locations|, k requires 0 <= k < |locations| => Magnitude(f, lambda, ns[k], locations[k]))
  }

  /** Forney's formula divides by zero only where there is nothing to divide. */
  ghost predicate AllSolvable(f: GF, lambda: Poly, ns: seq<nat>, locations: seq<nat>)
    requires |ns| == |locations|
    requires forall k :: 0 <= k < |locations| ==> locations[k] <= Size(f)
  {
    forall k :: 0 <= k < |ns| ==> ns[k] != 0 ==> Denominator(f, lambda, locations[k]) != 0
  }

  ghost function ZeroCount(ns: seq<nat>, k: nat): (c: nat)
    requires k <= |ns|
    ensures c <= k
  {
    if k == 0 then 0 else ZeroCount(ns, k - 1) + if ns[k - 1] == 0 then 1 else 0
  }

  /** The evaluator polynomial as the code computes it evaluates like the truncated product. */
  lemma {:induction false} OmegaValue(f: GF, lambda: Poly, s: Poly, p: Poly, omega: Poly)
    requires p == Strip(PrefixProduct(f, lambda, s, |lambda| + |s|))
    requires omega == if |p| >= |s| then Strip(p[..|s|]) else p
    ensures forall x :: Eval(f, omega, x) == Eval(f, PrefixProduct(f, lambda, s, |s|), x)
  {
    hide Conv, Strip, Eval;
    var k := |lambda| + |s|;
    var full, cut := PrefixProduct(f, lambda, s, k), PrefixProduct(f, lambda, s, |s|);
    forall m: nat
      ensures At(omega, m) == At(cut, m)
    {
      assert At(p, m) == At(full, m);
      if m < |s| {
        assert At(full, m) == Conv(f, lambda, s, m) == At(cut, m);
        if |p| >= |s| { assert At(p[..|s|], m) == At(p, m); }
      }
    }
    forall x
      ensures Eval(f, omega, x) == Eval(f, cut, x)
    {
      EvalSame(f, omega, cut, x);
    }
  }

  lemma {:induction false} NothingApplied(f: Field, before: seq<int>, locations: seq<nat>, values: seq<nat>)
    requires |locations| == |values|
    requires forall k :: 0 <= k < |locations| ==> 1 <= locations[k] <= |before|
    ensures Applied(f, before, before, locations, values, 0)
  {
  }

  lemma {:induction false} AppliedOutside(f: Field, before: seq<int>, after: seq<int>, locations: seq<nat>, values: seq<nat>, i: nat)
    requires i <= |locations| == |values| && |before| == |after|
    requires forall k :: 0 <= k < |locations| ==> 1 <= locations[k] <= |before|
    requires Applied(f, before, after, locations, values, i)
    ensures forall j :: 0 <= j < |after| && j + 1 !in locations ==> after[j] == before[j]
  {
    hide SymbolXor;
  }

  lemma {:induction false} NothingToAdd(f: GF, lambda: Poly, loc: nat, v: int)
    requires Elems(f, lambda) && loc <= Size(f)
    ensures SymbolXor(f, v, Magnitude(f, lambda, 0, loc)) == v
  {
    XorZero(Symbol(f, v));
  }

  // ---------------------------------------------------------------------------------------
  // A block within reach of a codeword
  // ---------------------------------------------------------------------------------------

  /** `c` is a codeword, and `a` differs from it in at most half as many symbols as there are
  parity symbols. */
  ghost predicate Correctable(f: GF, first: nat, fec: nat, a: seq<int>, c: seq<int>) {
    && |a| == |c| == Size(f)
    && Codeword(f, first, fec, c)
    && 2 * Distance(f, a, c) <= fec
  }

  /** Every symbol is that of the codeword, and symbols that were right are untouched. */
  ghost predicate Restores(f: Field, before: seq<int>, after: seq<int>, c: seq<int>) {
    && |before| == |after| == |c|
    && forall i :: 0 <= i < |c| ==>
         && Symbol(f, after[i]) == Symbol(f, c[i])
         && (Symbol(f, before[i]) == Symbol(f, c[i]) ==> after[i] == before[i])
  }

  lemma {:induction false} DistanceZero(f: Field, a: seq<int>, c: seq<int>)
    requires |a| == |c| && Distance(f, a, c) == 0
    ensures forall i :: 0 <= i < |a| ==> Symbol(f, a[i]) == Symbol(f, c[i])
    decreases |a|
  {
    hide Symbol;
    if a != [] {
      DistanceZero(f, a[1..], c[1..]);
      forall i | 0 <= i < |a|
        ensures Symbol(f, a[i]) == Symbol(f, c[i])
      {
        if i > 0 { assert a[i] == a[1..][i - 1] && c[i] == c[1..][i - 1]; }
      }
    }
  }

  lemma {:induction false} SilentIsClean(f: GF, first: nat, fec: nat, a: seq<int>, c: seq<int>, s: Poly)
    requires |a| == |c| <= Size(f) && Codeword(f, first, fec, c) && |s| == fec && Syndromes(f, first, a, s)
    requires Distance(f, a, c) <= fec && forall j :: 0 <= j < |s| ==> s[j] == 0
    ensures Distance(f, a, c) == 0
  {
    hide Codeword, Distance, Syndromes, Series, Errors;
    var ts := Errors(f, first, a, c);
    ErrorsAreSeries(f, first, a, c);
    SyndromesAreSums(f, first, fec, a, c, s);
    forall m | 0 <= m < 0 + |ts|
      ensures TermSum(f, ts, m) == 0
    {
      assert s[m] == 0;
    }
    if |ts| > 0 {
      assert ts[0].w != 0;
      Independence(f, ts, 0);
    }
  }

  lemma {:induction false} CleanIsSilent(f: GF, first: nat, fec: nat, a: seq<int>, c: seq<int>, s: Poly)
    requires |a| == |c| <= Size(f) && Codeword(f, first, fec, c) && |s| == fec && Syndromes(f, first, a, s)
    requires Distance(f, a, c) == 0
    ensures forall j :: 0 <= j < |s| ==> s[j] == 0
  {
    hide Codeword, Distance, Syndromes, Series, Errors;
    ErrorsAreSeries(f, first, a, c);
    SyndromesAreSums(f, first, fec, a, c, s);
    assert Errors(f, first, a, c) == [];
    forall j | 0 <= j < |s|
      ensures s[j] == 0
    {
      assert s[j] == TermSum(f, [], j);
    }
  }

  /** Up to as many errors as there are parity symbols never go unnoticed. */
  lemma {:induction false} ErrorsNoticed(f: GF, first: nat, fec: nat, a: seq<int>, c: seq<int>, s: Poly)
    requires |a| == |c| <= Size(f) && Codeword(f, first, fec, c) && |s| == fec && Syndromes(f, first, a, s)
    requires Distance(f, a, c) <= fec
    ensures (forall j :: 0 <= j < |s| ==> s[j] == 0) <==> Distance(f, a, c) == 0
  {
    hide Codeword, Distance, Syndromes;
    if Distance(f, a, c) == 0 {
      CleanIsSilent(f, first, fec, a, c, s);
    } else if forall j :: 0 <= j < |s| ==> s[j] == 0 {
      SilentIsClean(f, first, fec, a, c, s);
    }
  }

  /** Two codewords with at most as many different symbols as there are parity symbols are the same:
  the code has the largest distance that its parity allows. */
  lemma {:induction false} MinimumDistance(f: GF, first: nat, fec: nat, a: seq<int>, c: seq<int>)
    requires |a| == |c| <= Size(f) && Codeword(f, first, fec, a) && Codeword(f, first, fec, c)
    requires Distance(f, a, c) <= fec
    ensures Distance(f, a, c) == 0
  {
    hide Distance, Eval, Alpha;
    var s := seq(fec, j => 0);
    assert Syndromes(f, first, a, s);
    ErrorsNoticed(f, first, fec, a, c, s);
  }

  lemma {:induction false} Triangle(f: Field, a: seq<int>, b: seq<int>, c: seq<int>)
    requires |a| == |b| == |c|
    ensures Distance(f, a, c) <= Distance(f, b, a) + Distance(f, b, c)
    decreases |a|
  {
    hide Symbol;
    if a != [] {
      Triangle(f, a[1..], b[1..], c[1..]);
    }
  }

  /** At most one codeword is within reach of a block. */
  lemma {:induction false} OnlyOneWithinReach(f: GF, first: nat, fec: nat, a: seq<int>, c: seq<int>, d: seq<int>)
    requires Correctable(f, first, fec, a, c) && Correctable(f, first, fec, a, d)
    ensures Distance(f, c, d) == 0
  {
    hide Distance, Codeword;
    Triangle(f, c, a, d);
    MinimumDistance(f, first, fec, c, d);
  }

  /** Vanishing syndromes within reach of a codeword mean that there is no error. */
  lemma {:induction false} ZeroSyndromes(f: GF, first: nat, fec: nat, a: seq<int>, c: seq<int>, s: Poly)
    requires Correctable(f, first, fec, a, c) && |s| == fec && Syndromes(f, first, a, s)
    requires forall j :: 0 <= j < |s| ==> s[j] == 0
    ensures Distance(f, a, c) == 0 && Restores(f, a, a, c)
  {
    hide Codeword, Distance, Syndromes;
    ErrorsNoticed(f, first, fec, a, c, s);
    DistanceZero(f, a, c);
  }

  ghost predicate RootTable(f: GF, first: nat, table: seq<nat>) {
    && |table| == Size(f) + 1
    && forall i :: 0 <= i <= Size(f) ==> FirstRootFactor(f, Alpha(f, Size(f) - i), first, table[i])
  }

  /** What the decoder has found out about a block before it corrects it. */
  ghost predicate Findings(f: GF, first: nat, fec: nat, a: seq<int>, s: Poly, table: seq<nat>, lambda: Poly, l: nat, roots: seq<nat>) {
    && |a| == Size(f) && |s| == fec && Syndromes(f, first, a, s) && RootTable(f, first, table)
    && Generates(f, lambda, l, s, fec) && Shortest(f, l, s, fec)
    && RootExponents(f, lambda, roots)
  }

  /** Within reach of a codeword, the locator has exactly one root for every error. */
  lemma {:induction false} LocatorFound(f: GF, first: nat, fec: nat, a: seq<int>, c: seq<int>, s: Poly, table: seq<nat>, lambda: Poly, l: nat, roots: seq<nat>)
    requires Findings(f, first, fec, a, s, table, lambda, l, roots) && Correctable(f, first, fec, a, c)
    ensures Elems(f, lambda) && Nonzero(lambda)
    ensures Series(f, Errors(f, first, a, c)) && Sums(f, Errors(f, first, a, c), s)
    ensures |lambda| == |Errors(f, first, a, c)| + 1 && |Errors(f, first, a, c)| == Distance(f, a, c) == l
    ensures AllRoots(f, lambda, Inverses(f, Errors(f, first, a, c)))
    ensures roots == Locations(Positions(ErrorPoly(f, a, c), |a|), Size(f)) && |table| == Size(f) + 1
  {
    hide Codeword, Distance, Syndromes, Series, Sums, Eval, Alpha, RootExponents, FirstRootFactor, ErrorPoly, AllRoots;
    var ts := Errors(f, first, a, c);
    var ps := Positions(ErrorPoly(f, a, c), |a|);
    ErrorsAreSeries(f, first, a, c);
    SyndromesAreSums(f, first, fec, a, c, s);
    LocatorGenerates(f, ts, s);
    ShortestRecurrence(f, lambda, l, ts, s);
    RootsAreLocations(f, lambda, roots, ts, ps);
    assert lambda[0] != 0;
  }

  /** The error term that belongs to a location. */
  lemma {:induction false} TermAt(f: GF, first: nat, a: seq<int>, c: seq<int>, roots: seq<nat>, k: nat)
    requires |a| == |c| == Size(f) && roots == Locations(Positions(ErrorPoly(f, a, c), |a|), Size(f)) && k < |roots|
    ensures var ts, i := Errors(f, first, a, c), |roots| - 1 - k;
            && 1 <= roots[k] <= Size(f) && |ts| == |roots|
            && var p := Size(f) - roots[k];
               && ts[i].x == Alpha(f, p) && ts[i].w == Mul(f, ErrorPoly(f, a, c)[p], Pow(f, Alpha(f, p), first))
               && Inv(f, ts[i].x) == Alpha(f, roots[k])
               && Elem(f, ErrorPoly(f, a, c)[p]) && ErrorPoly(f, a, c)[p] != 0
  {
    hide Alpha, ErrorPoly, Mul, Pow, Inv, Symbol;
    var e := ErrorPoly(f, a, c);
    var ps := Positions(e, |a|);
    var i := |ps| - 1 - k;
    var p := ps[i];
    assert roots[k] == Size(f) - p;
    ErrorPolyAt(f, a, c, p);
    InverseIsAlpha(f, p);
    assert Errors(f, first, a, c)[i] == ErrorTerm(f, e, first, p);
  }

  lemma {:induction false} TableAt(f: GF, first: nat, table: seq<nat>, loc: nat)
    requires RootTable(f, first, table) && loc <= Size(f)
    ensures Mul(f, table[loc], Pow(f, Alpha(f, Size(f) - loc), first)) == Alpha(f, Size(f) - loc)
  {
    hide Alpha, Mul, Pow;
    assert FirstRootFactor(f, Alpha(f, Size(f) - loc), first, table[loc]);
  }

  /** At every location Forney's formula gives the error at the matching position. */
  lemma {:induction false} ValueFound(f: GF, first: nat, fec: nat, a: seq<int>, c: seq<int>, s: Poly, table: seq<nat>, lambda: Poly, l: nat, roots: seq<nat>, k: nat)
    requires Findings(f, first, fec, a, s, table, lambda, l, roots) && Correctable(f, first, fec, a, c)
    requires k < |roots|
    ensures Elems(f, lambda) && 1 <= roots[k] <= Size(f)
    ensures Denominator(f, lambda, roots[k]) != 0
    ensures Numerator(f, lambda, s, table[roots[k]], roots[k]) != 0
    ensures Magnitude(f, lambda, Numerator(f, lambda, s, table[roots[k]], roots[k]), roots[k])
         == ErrorPoly(f, a, c)[Size(f) - roots[k]]
  {
    hide Codeword, Distance, Syndromes, Series, Sums, Eval, Alpha, RootExponents, ErrorPoly, AllRoots, Generates,
      Shortest, Mul, Pow, Nonzero, Numerator, Denominator, Div, RootTable, Errors, Inverses, Inv, Positions, Locations, Elems;
    LocatorFound(f, first, fec, a, c, s, table, lambda, l, roots);
    TermAt(f, first, a, c, roots, k);
    TableAt(f, first, table, roots[k]);
    var p := Size(f) - roots[k];
    ForneyValue(f, lambda, s, Errors(f, first, a, c), |roots| - 1 - k, first, ErrorPoly(f, a, c)[p], table[roots[k]], roots[k]);
  }

  lemma {:induction false} NoZeros(ns: seq<nat>, k: nat)
    requires k <= |ns| && forall i :: 0 <= i < k ==> ns[i] != 0
    ensures ZeroCount(ns, k) == 0
    decreases k
  {
    if k > 0 {
      NoZeros(ns, k - 1);
    }
  }

  /** Within reach of a codeword the decoder finds as many errors as there are, and can solve for
  all of them. */
  lemma {:induction false} ErrorsFound(f: GF, first: nat, fec: nat, a: seq<int>, c: seq<int>, s: Poly, table: seq<nat>, lambda: Poly, l: nat, roots: seq<nat>)
    requires Findings(f, first, fec, a, s, table, lambda, l, roots) && Correctable(f, first, fec, a, c)
    ensures Elems(f, lambda) && |lambda| == |roots| + 1 && |roots| == Distance(f, a, c)
    ensures forall k :: 0 <= k < |roots| ==> 1 <= roots[k] <= Size(f)
    ensures var ns := Numerators(f, table, lambda, s, roots);
            AllSolvable(f, lambda, ns, roots) && ZeroCount(ns, |roots|) == 0
  {
    hide Codeword, Distance, Syndromes, Series, Sums, Eval, Alpha, ErrorPoly, AllRoots, Generates,
      Shortest, Mul, Pow, Nonzero, Numerator, Denominator, Div, Correctable, Errors, Positions, Inverses, FirstRootFactor;
    LocatorFound(f, first, fec, a, c, s, table, lambda, l, roots);
    var ns := Numerators(f, table, lambda, s, roots);
    forall k | 0 <= k < |roots|
      ensures ns[k] != 0 && Denominator(f, lambda, roots[k]) != 0
    {
      ValueFound(f, first, fec, a, c, s, table, lambda, l, roots, k);
    }
    NoZeros(ns, |roots|);
  }

  /** Adding the error at a location restores the symbol of the codeword. */
  lemma {:induction false} SymbolRestored(f: GF, a: seq<int>, c: seq<int>, p: nat)
    requires |a| == |c| && p < |a|
    ensures var i := |a| - 1 - p;
            Symbol(f, SymbolXor(f, a[i], ErrorPoly(f, a, c)[p])) == Symbol(f, c[i])
  {
    hide Xor, Symbol, SymbolXor, ErrorPoly;
    var i := |a| - 1 - p;
    ErrorPolyAt(f, a, c, p);
    SymbolOfXor(f, a[i], ErrorPoly(f, a, c)[p]);
    XorCancel(Symbol(f, a[i]), Symbol(f, c[i]));
  }

  /** Once the values are added, the codeword is restored. */
  lemma {:induction false} CodewordRestored(f: GF, first: nat, fec: nat, a: seq<int>, c: seq<int>, s: Poly, table: seq<nat>, lambda: Poly, l: nat, roots: seq<nat>, after: seq<int>)
    requires Findings(f, first, fec, a, s, table, lambda, l, roots) && Correctable(f, first, fec, a, c)
    requires |after| == |a| && Elems(f, lambda)
    requires forall k :: 0 <= k < |roots| ==> 1 <= roots[k] <= Size(f)
    requires Applied(f, a, after, roots, Magnitudes(f, lambda, Numerators(f, table, lambda, s, roots), roots), |roots|)
    ensures Restores(f, a, after, c)
  {
    hide Codeword, Distance, Syndromes, Series, Sums, Eval, Alpha, AllRoots, Generates,
      Shortest, Mul, Pow, Nonzero, Numerator, Denominator, Div, Inverses, FirstRootFactor, SymbolXor, Symbol, ErrorPoly,
      Magnitude, RootTable, RootExponents, Positions, Locations, Applied, Restores;
    LocatorFound(f, first, fec, a, c, s, table, lambda, l, roots);
    var ns := Numerators(f, table, lambda, s, roots);
    var values := Magnitudes(f, lambda, ns, roots);
    forall k | 0 <= k < |roots|
      ensures values[k] == ErrorPoly(f, a, c)[|a| - roots[k]]
    {
      ValueFound(f, first, fec, a, c, s, table, lambda, l, roots, k);
    }
    ValuesRestore(f, a, c, roots, values, after);
  }

  lemma {:induction false} ValuesRestore(f: GF, a: seq<int>, c: seq<int>, roots: seq<nat>, values: seq<nat>, after: seq<int>)
    requires |a| == |c| == |after| && |values| == |roots|
    requires roots == Locations(Positions(ErrorPoly(f, a, c), |a|), |a|)
    requires forall k :: 0 <= k < |roots| ==> values[k] == ErrorPoly(f, a, c)[|a| - roots[k]]
    requires Applied(f, a, after, roots, values, |roots|)
    ensures Restores(f, a, after, c)
  {
    hide SymbolXor, Symbol, ErrorPoly, Applied, Positions, Locations;
    forall i | 0 <= i < |a|
      ensures Symbol(f, after[i]) == Symbol(f, c[i])
      ensures Symbol(f, a[i]) == Symbol(f, c[i]) ==> after[i] == a[i]
    {
      ErrorPolyAt(f, a, c, |a| - 1 - i);
      if ErrorPoly(f, a, c)[|a| - 1 - i] != 0 {
        var k := LocationOf(ErrorPoly(f, a, c), |a|, i);
        AppliedAt(f, a, after, roots, values, k);
        assert values[k] == ErrorPoly(f, a, c)[|a| - roots[k]];
        SymbolRestored(f, a, c, |a| - 1 - i);
      } else {
        NotALocation(ErrorPoly(f, a, c), |a|, i);
        NotApplied(f, a, after, roots, values, i);
      }
    }
  }

  /** Every error has its location. */
  lemma {:induction false} LocationOf(e: Poly, n: nat, i: nat) returns (k: nat)
    requires i < n == |e| && e[n - 1 - i] != 0
    ensures k < |Locations(Positions(e, n), n)| && Locations(Positions(e, n), n)[k] == i + 1
  {
    var ps := Positions(e, n);
    var m :| 0 <= m < |ps| && ps[m] == n - 1 - i;
    k := |ps| - 1 - m;
  }

  lemma {:induction false} AppliedAt(f: Field, before: seq<int>, after: seq<int>, locations: seq<nat>, values: seq<nat>, k: nat)
    requires k < |locations| == |values| && |before| == |after|
    requires forall j :: 0 <= j < |locations| ==> 1 <= locations[j] <= |before|
    requires Applied(f, before, after, locations, values, |locations|)
    ensures after[locations[k] - 1] == SymbolXor(f, before[locations[k] - 1], values[k])
  {
    hide SymbolXor;
  }

  lemma {:induction false} NotApplied(f: Field, before: seq<int>, after: seq<int>, locations: seq<nat>, values: seq<nat>, i: nat)
    requires |locations| == |values| && |before| == |after| && i < |before|
    requires forall j :: 0 <= j < |locations| ==> 1 <= locations[j] <= |before|
    requires Applied(f, before, after, locations, values, |locations|) && i + 1 !in locations
    ensures after[i] == before[i]
  {
    hide SymbolXor;
    assert locations[..|locations|] == locations;
  }

  lemma {:induction false} NotALocation(e: Poly, n: nat, i: nat)
    requires i < n == |e| && e[n - 1 - i] == 0
    ensures i + 1 !in Locations(Positions(e, n), n)
  {
    var ps := Positions(e, n);
    var ls := Locations(ps, n);
    forall k | 0 <= k < |ls|
      ensures ls[k] != i + 1
    {
      assert e[ps[|ps| - 1 - k]] != 0;
    }
  }

  // ---------------------------------------------------------------------------------------
  // How much the decoder changes
  // ---------------------------------------------------------------------------------------

  lemma {:induction false} WithinLength(s: seq<nat>, t: seq<nat>)
    requires Increasing(s) && Increasing(t) && Within(s, t)
    ensures |s| <= |t|
    decreases |t|
  {
    if |s| > 0 {
      WithinLast(s, t);
      var m, n := |s| - 1, |t| - 1;
      if s[m] == t[n] {
        WithinDropLast(s, t);
        WithinLength(s[..m], t[..n]);
      } else {
        forall k | 0 <= k < |s|
          ensures s[k] in t[..n]
        {
          var j :| 0 <= j < |t| && t[j] == s[k];
          assert t[..n][j] == s[k];
        }
        WithinLength(s, t[..n]);
      }
    }
  }

  /** A block that changes only at the given locations moves by at most their number. */
  lemma {:induction false} ChangeBound(f: Field, a: seq<int>, after: seq<int>, locations: seq<nat>)
    requires |a| == |after| && Increasing(locations)
    requires forall j :: 0 <= j < |a| && j + 1 !in locations ==> after[j] == a[j]
    ensures Distance(f, a, after) <= |locations|
  {
    hide Symbol, ErrorPoly, Distance;
    var n, e := |a|, ErrorPoly(f, a, after);
    var ps := Positions(e, n);
    PositionsCount(f, a, after, n);
    assert a[0..] == a && after[0..] == after;
    var ls := Locations(ps, n);
    forall k | 0 <= k < |ls|
      ensures ls[k] in locations
    {
      ErrorPolyAt(f, a, after, ps[|ps| - 1 - k]);
    }
    WithinLength(ls, locations);
  }
}
