/** The Reed-Solomon decoder for blocks without erasures: syndromes, the Berlekamp-Massey
algorithm, Chien search and Forney's algorithm. */
module Decoder {
  import opened Bits
  import opened GaloisField
  import opened FieldTables
  import opened Polynomial
  import opened Roots
  import opened FieldPolynomial
  import opened Locator
  import opened BerlekampMassey
  import opened Encoder
  import opened Correction
  import opened Forney
  import opened Outcome

  // ---------------------------------------------------------------------------------------
  // Lookup tables
  // ---------------------------------------------------------------------------------------

  lemma {:induction false} FullCycle(f: GF, x: nat)
    requires Elem(f, x) && x != 0
    ensures Pow(f, x, Size(f)) == 1
  {
    var i, n := f.indexOf[x], Size(f);
    AlphaPow(f, i, n);
    ModUnique(i * n, n, i, 0);
  }

  lemma {:induction false} PowCycles(f: GF, x: nat, k: nat, q: nat)
    requires Elem(f, x) && x != 0
    ensures Pow(f, x, k + q * Size(f)) == Pow(f, x, k)
    decreases q
  {
    hide Mul, Pow;
    var n := Size(f);
    if q > 0 {
      PowCycles(f, x, k, q - 1);
      assert k + q * n == (k + (q - 1) * n) + n;
      PowAdd(f, x, k + (q - 1) * n, n);
      FullCycle(f, x);
      MulOne(f, Pow(f, x, k));
    } else {
      assert q * n == 0;
    }
  }

  /** Raising to `1 - first`, however the exponent wraps, frees `x^first` of all but one factor. */
  lemma {:induction false} WrappedExponent(f: GF, x: nat, first: nat)
    requires Elem(f, x) && x != 0
    ensures FirstRootFactor(f, x, first, Pow(f, x, Residue(1 - first, Size(f))))
  {
    hide Mul, Pow;
    var n := Size(f);
    var e := Residue(1 - first, n);
    var q := -((1 - first) / n);
    assert 1 - first == ((1 - first) / n) * n + e;
    assert e + first == 1 + q * n;
    MultipleBound(q, n);
    PowAdd(f, x, e, first);
    PowCycles(f, x, 1, q);
    PowFirst(f, x);
  }

  lemma {:induction false} PowFirst(f: GF, x: nat)
    requires Elem(f, x)
    ensures Pow(f, x, 1) == x && Pow(f, x, 0) == 1
  {
    MulOne(f, x);
    assert Pow(f, x, 1) == Mul(f, x, Pow(f, x, 0));
  }

  // ---------------------------------------------------------------------------------------
  // Chien search
  // ---------------------------------------------------------------------------------------

  ghost function Antilogs(f: GF, roots: seq<nat>): (rs: seq<nat>)
    requires forall k :: 0 <= k < |roots| ==> roots[k] <= Size(f)
    ensures |rs| == |roots|
    ensures forall k :: 0 <= k < |roots| ==> rs[k] == Alpha(f, roots[k])
  {
    seq(|roots|, k requires 0 <= k < |roots| => Alpha(f, roots[k]))
  }

  /** The exponents below `i` at which the polynomial vanishes, in increasing order. */
  ghost predicate RootsBelow(f: GF, s: Poly, roots: seq<nat>, i: nat) {
    && Increasing(roots)
    && (forall k :: 0 <= k < |roots| ==>
          1 <= roots[k] < i && roots[k] <= Size(f) && Eval(f, s, Alpha(f, roots[k])) == 0)
    && (forall j :: 1 <= j < i && j <= Size(f) && Eval(f, s, Alpha(f, j)) == 0 ==> j in roots)
  }

  /** Fewer roots than coefficients, also for roots named by their exponents. */
  lemma {:induction false} ExponentBound(f: GF, s: Poly, roots: seq<nat>)
    requires Elems(f, s) && Nonzero(s) && Increasing(roots)
    requires forall k :: 0 <= k < |roots| ==> 1 <= roots[k] <= Size(f) && Eval(f, s, Alpha(f, roots[k])) == 0
    ensures |roots| < |s|
  {
    hide Alpha, Eval, Nonzero;
    var rs := Antilogs(f, roots);
    forall i, j | 0 <= i < j < |rs|
      ensures rs[i] != rs[j]
    {
      if rs[i] == rs[j] {
        AlphaInjectiveUp(f, roots[i], roots[j]);
      }
    }
    RootBound(f, s, rs);
  }

  /** Once as many roots are found as the degree allows, there are no more. */
  lemma {:induction false} SearchComplete(f: GF, s: Poly, roots: seq<nat>, i: nat)
    requires Elems(f, s) && Nonzero(s) && RootsBelow(f, s, roots, i) && |roots| + 1 == |s|
    ensures RootExponents(f, s, roots)
  {
    hide Alpha, Eval, Nonzero;
    forall j | 1 <= j <= Size(f) && Eval(f, s, Alpha(f, j)) == 0
      ensures j in roots
    {
      if j >= i {
        ExponentBound(f, s, roots + [j]);
      }
    }
  }

  lemma {:induction false} RootFound(f: GF, s: Poly, roots: seq<nat>, i: nat)
    requires RootsBelow(f, s, roots, i) && 1 <= i <= Size(f)
    ensures Eval(f, s, Alpha(f, i)) == 0 ==> RootsBelow(f, s, roots + [i], i + 1)
    ensures Eval(f, s, Alpha(f, i)) != 0 ==> RootsBelow(f, s, roots, i + 1)
  {
    hide Alpha, Eval;
  }

  // ---------------------------------------------------------------------------------------
  // The decoder
  // ---------------------------------------------------------------------------------------

  class Decoder {
    const f: GF
    const codeLength: nat
    const fecLength: nat
    const genInitialIndex: nat
    const valid: bool
    var rootExponentTable: seq<nat>
    var syndromeExponentTable: seq<nat>

    ghost predicate Tables()
      reads this
    {
      && genInitialIndex + fecLength <= Size(f) + 1
      && |rootExponentTable| == Size(f) + 1
      && (forall i :: 0 <= i <= Size(f) ==>
            FirstRootFactor(f, Alpha(f, Size(f) - i), genInitialIndex, rootExponentTable[i]))
      && |syndromeExponentTable| == fecLength
      && (forall i :: 0 <= i < fecLength ==> syndromeExponentTable[i] == Alpha(f, genInitialIndex + i))
    }

    ghost predicate Ok()
      reads this
    {
      && 0 < fecLength < codeLength
      && valid == (codeLength == Size(f))
      && (valid ==> Tables())
    }

    constructor (codeLength: nat, fecLength: nat, f: GF, genInitialIndex: nat)
      requires 0 < fecLength < codeLength
      requires codeLength == Size(f) ==> genInitialIndex + fecLength <= Size(f) + 1
      ensures Ok() && this.f == f && this.codeLength == codeLength
      ensures this.fecLength == fecLength && this.genInitialIndex == genInitialIndex
    {
      this.f := f;
      this.codeLength := codeLength;
      this.fecLength := fecLength;
      this.genInitialIndex := genInitialIndex;
      this.valid := codeLength == Size(f);
      this.rootExponentTable := [];
      this.syndromeExponentTable := [];
      new;
      if valid {
        CreateLookupTables();
      }
    }

    method CreateLookupTables()
      requires codeLength == Size(f) && genInitialIndex + fecLength <= Size(f) + 1
      requires rootExponentTable == [] && syndromeExponentTable == []
      modifies this
      ensures Tables()
    {
      hide Mul, Pow, TablePow, Alpha, FirstRootFactor;
      var i := 0;
      while i < Size(f) + 1
        invariant 0 <= i <= Size(f) + 1 && |rootExponentTable| == i && syndromeExponentTable == []
        invariant forall k :: 0 <= k < i ==>
                    FirstRootFactor(f, Alpha(f, Size(f) - k), genInitialIndex, rootExponentTable[k])
      {
        var r := Exp(f, Alpha(f, codeLength - i), 1 - genInitialIndex);
        ExponentEntry(f, Alpha(f, codeLength - i), genInitialIndex, r);
        rootExponentTable := rootExponentTable + [r];
        i := i + 1;
      }
      i := 0;
      while i < fecLength
        invariant 0 <= i <= fecLength && |syndromeExponentTable| == i && |rootExponentTable| == Size(f) + 1
        invariant forall k :: 0 <= k <= Size(f) ==>
                    FirstRootFactor(f, Alpha(f, Size(f) - k), genInitialIndex, rootExponentTable[k])
        invariant forall k :: 0 <= k < i ==> syndromeExponentTable[k] == Alpha(f, genInitialIndex + k)
      {
        syndromeExponentTable := syndromeExponentTable + [Alpha(f, genInitialIndex + i)];
        i := i + 1;
      }
    }

    /** The received polynomial is the block in reverse order, each symbol cut to the field. */
    method LoadMessage(b: Block) returns (received: FieldPolynomial)
      requires b.data.Length == codeLength > 0
      ensures fresh(received) && received.f == f && received.Ok()
      ensures received.poly == Load(f, b.data[..])
    {
      hide Symbol;
      received := new FieldPolynomial.OfDegree(f, codeLength - 1);
      var i := 0;
      while i < codeLength
        invariant 0 <= i <= codeLength
        invariant received.f == f && |received.poly| == codeLength
        invariant forall k :: codeLength - i <= k < codeLength ==>
                    received.poly[k] == Symbol(f, b.data[codeLength - 1 - k])
        modifies received
      {
        received.poly := received.poly[codeLength - 1 - i := Symbol(f, b.data[i])];
        i := i + 1;
      }
      assert received.poly == Load(f, b.data[..]);
    }

    /** The flag is raised when any syndrome is non-zero. */
    method ComputeSyndrome(received: FieldPolynomial) returns (syndrome: Poly, errorFlag: bool)
      requires Ok() && valid && received.f == f && received.Ok() && |received.poly| <= Pow2(f.power)
      ensures |syndrome| == fecLength && Elems(f, syndrome)
      ensures forall j :: 0 <= j < fecLength ==> syndrome[j] == Eval(f, received.poly, Alpha(f, genInitialIndex + j))
      ensures errorFlag <==> exists j :: 0 <= j < fecLength && syndrome[j] != 0
    {
      hide Eval, TableEval, Alpha, FirstRootFactor;
      syndrome := Zeros(fecLength);
      errorFlag := false;
      var i := 0;
      while i < fecLength
        invariant 0 <= i <= fecLength && |syndrome| == fecLength && Elems(f, syndrome)
        invariant forall j :: 0 <= j < i ==> syndrome[j] == Eval(f, received.poly, Alpha(f, genInitialIndex + j))
        invariant errorFlag <==> exists j :: 0 <= j < i && syndrome[j] != 0
      {
        assert syndromeExponentTable[i] == Alpha(f, genInitialIndex + i);
        var v := received.Evaluate(syndromeExponentTable[i]);
        EvalElem(f, received.poly, syndromeExponentTable[i]);
        ghost var before := syndrome;
        syndrome := syndrome[i := v];
        assert forall j :: 0 <= j < i ==> syndrome[j] == before[j];
        errorFlag := errorFlag || syndrome[i] != 0;
        i := i + 1;
      }
    }

    /** How far the current recurrence misses the syndrome of this round. */
    method ComputeDiscrepancy(lambda: Poly, syndrome: Poly, l: nat, round: nat) returns (discrepancy: nat)
      requires Elems(f, lambda) && Elems(f, syndrome) && lambda != [] && l <= round < |syndrome|
      ensures Elem(f, discrepancy)
      ensures |lambda| <= l + 1 ==> discrepancy == Conv(f, lambda, syndrome, round)
    {
      hide Xor, Mul, Conv;
      var upperBound := if l < |lambda| - 1 then l else |lambda| - 1;
      discrepancy := 0;
      assert Conv(f, [], syndrome, round) == 0 by { NoConv(f, syndrome, round); }
      var i := 0;
      while i <= upperBound
        invariant 0 <= i <= upperBound + 1 && Elem(f, discrepancy)
        invariant discrepancy == Conv(f, lambda[..i], syndrome, round)
      {
        var t := GenMul(f, lambda[i], syndrome[round - i]);
        assert lambda[..i + 1] == lambda[..i] + [lambda[i]];
        ConvSnoc(f, lambda[..i], lambda[i], syndrome, round);
        XorBound(discrepancy, t, f.power);
        discrepancy := Xor(discrepancy, t);
        i := i + 1;
      }
      if |lambda| <= l + 1 {
        assert lambda[..i] == lambda;
      }
    }

    /** Finds the shortest recurrence that generates the syndromes. */
    method BerlekampMasseyAlgorithm(lambda: FieldPolynomial, syndrome: Poly) returns (ghost length: nat)
      requires lambda.f == f && lambda.Ok() && lambda.poly == [1] && |syndrome| == fecLength && Elems(f, syndrome)
      modifies lambda
      ensures lambda.Ok()
      ensures Generates(f, lambda.poly, length, syndrome, fecLength)
      ensures lambda.poly[|lambda.poly| - 1] != 0
      ensures Shortest(f, length, syndrome, fecLength) && length <= fecLength
      ensures lambda.poly == Massey(f, syndrome, fecLength).lambda && length == Massey(f, syndrome, fecLength).length
    {
      hide Conv, Strip, Generates, Shortest, Sum, Scale, DivideAll, Valid, Massey, NextRound;
      var i: int := -1;
      var l: nat := 0;
      var previous := new FieldPolynomial(f, lambda.poly);
      previous.ShiftLeft(1);
      assert previous.poly == [0, 1];
      MasseyStart(f, syndrome);
      var round := 0;
      while round < fecLength
        invariant 0 <= round <= fecLength && i == l - 1
        invariant lambda != previous && previous.f == f && lambda.Ok() && previous.Ok()
        invariant Round(lambda.poly, previous.poly, l) == Massey(f, syndrome, round)
        modifies lambda, previous
      {
        ghost var before := Massey(f, syndrome, round);
        MasseyStep(f, syndrome, round);
        MasseyShape(f, syndrome, round);
        var discrepancy := ComputeDiscrepancy(lambda.poly, syndrome, l, round);
        if discrepancy != 0 {
          RoundWithDiscrepancy(f, before, syndrome, round);
          var tau := LessMultiple(lambda.poly, discrepancy, previous.poly);
          if l < round - i {
            var tmp := round - i;
            i := round - l;
            l := tmp;
            previous.poly := lambda.poly;
            previous.DivElement(discrepancy);
          }
          lambda.poly := tau;
        } else {
          RoundWithout(f, before, syndrome, round);
        }
        assert Zeros(1) == [0];
        previous.ShiftLeft(1);
        round := round + 1;
      }
      MasseyEnd(f, syndrome, fecLength);
      length := l;
    }

    /** A polynomial less a multiple of another. */
    method LessMultiple(p: Poly, d: nat, q: Poly) returns (r: Poly)
      requires Elems(f, p) && Elems(f, q) && Elem(f, d)
      ensures r == Strip(Sum(p, Scale(f, d, q))) && Elems(f, r)
    {
      hide Strip, Sum, Scale;
      var scaled := new FieldPolynomial(f, q);
      scaled.ScaleAssign(d);
      var tau := new FieldPolynomial(f, p);
      tau.AddAssign(scaled.poly);
      r := tau.poly;
    }

    /** Chien search: exactly the exponents of the powers at which the polynomial vanishes. */
    method FindRoots(poly: FieldPolynomial) returns (roots: seq<nat>)
      requires poly.f == f && poly.Ok() && codeLength == Size(f) && |poly.poly| <= Pow2(f.power)
      ensures Nonzero(poly.poly) ==> RootExponents(f, poly.poly, roots)
    {
      hide Eval, TableEval, Alpha, Nonzero, RootsBelow, RootExponents;
      roots := [];
      var degree := poly.Degree();
      var i := 1;
      NoRootsYet(f, poly.poly);
      while i <= codeLength
        invariant 1 <= i <= codeLength + 1 && RootsBelow(f, poly.poly, roots, i)
      {
        var v := poly.Evaluate(Alpha(f, i));
        RootFound(f, poly.poly, roots, i);
        if v == 0 {
          roots := roots + [i];
          if degree == |roots| {
            if Nonzero(poly.poly) {
              SearchComplete(f, poly.poly, roots, i + 1);
            }
            return;
          }
        }
        i := i + 1;
      }
      AllSearched(f, poly.poly, roots);
    }

    /** The numerator and the denominator of Forney's formula at one location. */
    method Fraction(omega: FieldPolynomial, derivative: FieldPolynomial, loc: nat,
        ghost lambda: Poly, ghost syndrome: Poly) returns (numerator: nat, denominator: nat)
      requires Ok() && valid && 1 <= loc <= Size(f) && Elems(f, lambda)
      requires omega.f == f && omega.Ok() && |omega.poly| <= Pow2(f.power)
      requires derivative.f == f && derivative.Ok() && |derivative.poly| <= Pow2(f.power)
      requires forall x :: Eval(f, omega.poly, x) == Eval(f, PrefixProduct(f, lambda, syndrome, |syndrome|), x)
      requires Same(derivative.poly, Derivative(lambda))
      ensures Elem(f, numerator) && Elem(f, denominator)
      ensures numerator == Numerator(f, lambda, syndrome, rootExponentTable[loc], loc)
      ensures denominator == Denominator(f, lambda, loc)
    {
      hide Xor, Mul, Conv, Eval, Alpha, TableEval;
      var alphaInverse := Alpha(f, loc);
      var u := omega.Evaluate(alphaInverse);
      EvalElem(f, omega.poly, alphaInverse);
      assert FirstRootFactor(f, Alpha(f, Size(f) - loc), genInitialIndex, rootExponentTable[loc]);
      numerator := GenMul(f, u, rootExponentTable[loc]);
      denominator := derivative.Evaluate(alphaInverse);
      EvalElem(f, derivative.poly, alphaInverse);
      EvalSame(f, derivative.poly, Derivative(lambda), alphaInverse);
    }

    /** Adds the error value at each location, or gives up at the first division by zero. */
    method ForneyAlgorithm(locations: seq<nat>, lambda: FieldPolynomial, syndrome: Poly, b: Block)
        returns (ok: bool)
      requires Ok() && valid && b.data.Length == codeLength
      requires lambda.f == f && lambda.Ok() && |lambda.poly| < Pow2(f.power)
      requires |syndrome| == fecLength && Elems(f, syndrome)
      requires Increasing(locations) && forall k :: 0 <= k < |locations| ==> 1 <= locations[k] <= Size(f)
      modifies b, b.data
      ensures b.errorsDetected == old(b.errorsDetected)
      ensures forall j :: 0 <= j < codeLength && j + 1 !in locations ==> b.data[j] == old(b.data[j])
      ensures AllSolvable(f, lambda.poly, Numerators(f, rootExponentTable, lambda.poly, syndrome, locations), locations) ==>
                && Applied(f, old(b.data[..]), b.data[..], locations,
                           Magnitudes(f, lambda.poly, Numerators(f, rootExponentTable, lambda.poly, syndrome, locations), locations), |locations|)
                && b.errorsCorrected + b.zeroNumerators == |locations|
                && b.zeroNumerators == ZeroCount(Numerators(f, rootExponentTable, lambda.poly, syndrome, locations), |locations|)
                && (ok <==> lambda.Degree() == b.errorsDetected)
      ensures !ok ==> b.unrecoverable && (b.error == DecoderError3 || b.error == DecoderError4)
      ensures ok ==> b.unrecoverable == old(b.unrecoverable) && b.error == old(b.error)
      ensures ok ==> lambda.Degree() == b.errorsDetected
    {
      hide Eval, Strip, Applied, Numerators, Magnitudes, AllSolvable, ZeroCount, Elems, Valid, Increasing, PrefixProduct, Derivative, Same;
      var omega := new FieldPolynomial(f, lambda.poly);
      omega.MulAssign(syndrome);
      ghost var product := omega.poly;
      omega.ModPower(fecLength);
      OmegaValue(f, lambda.poly, syndrome, product, omega.poly);
      var d := lambda.Derive();
      var derivative := new FieldPolynomial(f, d);
      var solved := AddErrors(locations, omega, derivative, b, lambda.poly, syndrome);
      if !solved {
        return false;
      }
      if lambda.Degree() == b.errorsDetected {
        return true;
      } else {
        b.unrecoverable := true;
        b.error := DecoderError4;
        return false;
      }
    }

    /** The loop over the locations. */
    method AddErrors(locations: seq<nat>, omega: FieldPolynomial, derivative: FieldPolynomial, b: Block,
        ghost lambda: Poly, ghost syndrome: Poly) returns (solved: bool)
      requires Ok() && valid && b.data.Length == codeLength && Elems(f, lambda)
      requires |rootExponentTable| == Size(f) + 1
      requires omega.f == f && omega.Ok() && |omega.poly| <= Pow2(f.power)
      requires derivative.f == f && derivative.Ok() && |derivative.poly| <= Pow2(f.power)
      requires forall x :: Eval(f, omega.poly, x) == Eval(f, PrefixProduct(f, lambda, syndrome, |syndrome|), x)
      requires Same(derivative.poly, Derivative(lambda))
      requires Increasing(locations) && forall k :: 0 <= k < |locations| ==> 1 <= locations[k] <= Size(f)
      modifies b, b.data
      ensures b.errorsDetected == old(b.errorsDetected)
      ensures forall j :: 0 <= j < codeLength && j + 1 !in locations ==> b.data[j] == old(b.data[j])
      ensures solved <==> AllSolvable(f, lambda, Numerators(f, rootExponentTable, lambda, syndrome, locations), locations)
      ensures solved ==>
                && Applied(f, old(b.data[..]), b.data[..], locations,
                           Magnitudes(f, lambda, Numerators(f, rootExponentTable, lambda, syndrome, locations), locations), |locations|)
                && b.errorsCorrected + b.zeroNumerators == |locations|
                && b.zeroNumerators == ZeroCount(Numerators(f, rootExponentTable, lambda, syndrome, locations), |locations|)
                && b.unrecoverable == old(b.unrecoverable) && b.error == old(b.error)
      ensures !solved ==> b.unrecoverable && b.error == DecoderError3
    {
      hide Eval, Div, SymbolXor, Applied, Numerator, Denominator, Tables, Valid, PrefixProduct, Derivative, Same, Increasing;
      b.errorsCorrected := 0;
      b.zeroNumerators := 0;
      ghost var before := b.data[..];
      ghost var ns := Numerators(f, rootExponentTable, lambda, syndrome, locations);
      ghost var values := Magnitudes(f, lambda, ns, locations);
      NothingApplied(f, before, locations, values);
      var i := 0;
      while i < |locations|
        invariant 0 <= i <= |locations|
        invariant b.errorsDetected == old(b.errorsDetected)
        invariant b.unrecoverable == old(b.unrecoverable) && b.error == old(b.error)
        invariant Applied(f, before, b.data[..], locations, values, i)
        invariant b.errorsCorrected + b.zeroNumerators == i && b.zeroNumerators == ZeroCount(ns, i)
        invariant forall k :: 0 <= k < i ==> ns[k] != 0 ==> Denominator(f, lambda, locations[k]) != 0
        modifies b, b.data
      {
        var loc := locations[i];
        var numerator, denominator := Fraction(omega, derivative, loc, lambda, syndrome);
        assert numerator == ns[i];
        ApplyNext(f, before, b.data[..], locations, values, i);
        if numerator != 0 {
          if denominator != 0 {
            var e := GenDiv(f, numerator, denominator);
            assert e == values[i];
            b.data[loc - 1] := SymbolXor(f, b.data[loc - 1], e);
            b.errorsCorrected := b.errorsCorrected + 1;
          } else {
            b.unrecoverable := true;
            b.error := DecoderError3;
            AppliedOutside(f, before, b.data[..], locations, values, i);
            return false;
          }
        } else {
          NothingToAdd(f, lambda, loc, b.data[loc - 1]);
          assert b.data[..][loc - 1 := b.data[loc - 1]] == b.data[..];
          b.zeroNumerators := b.zeroNumerators + 1;
        }
        i := i + 1;
      }
      AppliedOutside(f, before, b.data[..], locations, values, i);
      return true;
    }

    /** Decodes a block in place. If it lies within half the parity length of a codeword, the
    codeword is restored; and the decoder ends in a codeword only if it started within that radius
    of one. The result is true exactly if the syndromes vanish or their locator has as many roots as
    its degree and not too many; and then the block is the one that Forney's formula gives. */
    method Decode(b: Block) returns (ok: bool)
      requires Ok() && b.data.Length == codeLength
      modifies b, b.data
      ensures !valid ==> !ok && b.data[..] == old(b.data[..]) && b.unrecoverable && b.error == DecoderError0
      ensures valid ==> forall c :: Correctable(f, genInitialIndex, fecLength, old(b.data[..]), c) ==>
                && ok && Restores(f, old(b.data[..]), b.data[..], c)
                && b.errorsDetected == b.errorsCorrected == Distance(f, old(b.data[..]), c)
                && b.zeroNumerators == 0 && b.error == old(b.error)
                && (b.unrecoverable ==> old(b.unrecoverable))
      ensures valid ==> (ok && Codeword(f, genInitialIndex, fecLength, b.data[..]) <==>
                         exists c :: Correctable(f, genInitialIndex, fecLength, old(b.data[..]), c))
      ensures valid ==> Explains(f, genInitialIndex, fecLength, old(b.data[..]), b.data[..], ok)
      ensures 2 * Distance(f, old(b.data[..]), b.data[..]) <= fecLength
      ensures ok ==> b.errorsCorrected == Distance(f, old(b.data[..]), b.data[..])
      ensures valid ==> b.errorsDetected == |TraceOf(f, genInitialIndex, fecLength, old(b.data[..])).roots|
      ensures !ok ==> b.unrecoverable
      ensures valid && !ok ==> Refusal(fecLength, b.errorsDetected, b.error)
    {
      hide Codeword, Distance, TraceOf, CorrectedBlock, Accepted;
      ghost var a := b.data[..];
      ok := DecodeWithoutErasures(b);
      if valid {
        forall c | Correctable(f, genInitialIndex, fecLength, a, c)
          ensures ok && Restores(f, a, b.data[..], c) && b.errorsDetected == b.errorsCorrected == Distance(f, a, c)
        {
          WithinReachAccepted(f, genInitialIndex, fecLength, a, c);
        }
        EndsInCodeword(f, genInitialIndex, fecLength, a, b.data[..], ok);
      }
    }

    /** The decoder with an empty list of erasures. */
    method DecodeWithoutErasures(b: Block) returns (ok: bool)
      requires Ok() && b.data.Length == codeLength
      modifies b, b.data
      ensures !valid ==> !ok && b.data[..] == old(b.data[..]) && b.unrecoverable && b.error == DecoderError0
      ensures valid ==> Explains(f, genInitialIndex, fecLength, old(b.data[..]), b.data[..], ok)
      ensures valid ==> b.errorsDetected == |TraceOf(f, genInitialIndex, fecLength, old(b.data[..])).roots|
      ensures 2 * Distance(f, old(b.data[..]), b.data[..]) <= fecLength
      ensures ok ==> b.errorsCorrected == Distance(f, old(b.data[..]), b.data[..])
      ensures ok ==> b.errorsCorrected + b.zeroNumerators == b.errorsDetected && b.error == old(b.error)
      ensures ok ==> (b.unrecoverable ==> old(b.unrecoverable))
      ensures !ok ==> b.unrecoverable
      ensures valid && !ok ==> Refusal(fecLength, b.errorsDetected, b.error)
      ensures valid && !ok && (b.error == DecoderError1 || b.error == DecoderError2) ==>
                b.data[..] == old(b.data[..]) && b.errorsCorrected == b.zeroNumerators == 0
    {
      hide Eval, Alpha, Distance, Generates, Shortest, RootExponents,
        Applied, Numerators, Magnitudes, AllSolvable, ZeroCount, Elems, Valid, Load, Syndromes, Nonzero,
        FirstRootFactor, Findings, RootTable, Explains, Massey, TraceOf;
      ghost var a := b.data[..];
      ChangeBound(f, a, a, []);
      if !valid {
        b.errorsDetected := 0;
        b.errorsCorrected := 0;
        b.zeroNumerators := 0;
        b.unrecoverable := true;
        b.error := DecoderError0;
        return false;
      }
      var received := LoadMessage(b);
      var syndrome, errorFlag := ComputeSyndrome(received);
      AreSyndromes(f, genInitialIndex, a, syndrome);
      if !errorFlag {
        b.errorsDetected := 0;
        b.errorsCorrected := 0;
        b.zeroNumerators := 0;
        b.unrecoverable := false;
        CleanExplained(f, genInitialIndex, fecLength, a, syndrome);
        return true;
      }
      OneIsElement(f);
      var lambda := new FieldPolynomial(f, [1]);
      ghost var length := BerlekampMasseyAlgorithm(lambda, syndrome);
      ghost var locator := lambda.poly;
      RecurrenceShape(f, locator, length, syndrome, fecLength);
      var locations := FindRoots(lambda);
      HaveFindings(f, genInitialIndex, fecLength, a, syndrome, rootExponentTable, locator, length, locations);
      if |locations| == 0 {
        b.errorsDetected := 0;
        b.errorsCorrected := 0;
        b.zeroNumerators := 0;
        b.unrecoverable := true;
        b.error := DecoderError1;
        RefusalExplained(f, genInitialIndex, fecLength, a, syndrome, rootExponentTable, length, locations);
        return false;
      } else if 2 * |locations| > fecLength {
        b.errorsDetected := |locations|;
        b.errorsCorrected := 0;
        b.zeroNumerators := 0;
        b.unrecoverable := true;
        b.error := DecoderError2;
        RefusalExplained(f, genInitialIndex, fecLength, a, syndrome, rootExponentTable, length, locations);
        return false;
      } else {
        b.errorsDetected := |locations|;
      }
      ok := ForneyAlgorithm(locations, lambda, syndrome, b);
      ChangeBound(f, a, b.data[..], locations);
      CorrectionExplained(f, genInitialIndex, fecLength, a, b.data[..], ok, syndrome, rootExponentTable, length, locations);
    }
  }

  /** Which error goes with which number of locations. */
  predicate Refusal(fec: nat, found: nat, error: BlockError)
  {
    if found == 0 then error == DecoderError1
    else if 2 * found > fec then error == DecoderError2
    else error == DecoderError3 || error == DecoderError4
  }

  lemma {:induction false} AreSyndromes(f: GF, first: nat, a: seq<int>, s: Poly)
    requires first + |s| <= Size(f) + 1
    requires forall j :: 0 <= j < |s| ==> s[j] == Eval(f, Load(f, a), Alpha(f, first + j))
    ensures Syndromes(f, first, a, s)
  {
    hide Eval, Alpha, Load;
  }

  lemma {:induction false} OneIsElement(f: GF)
    ensures Elems(f, [1])
  {
  }

  lemma {:induction false} RecurrenceShape(f: GF, lambda: Poly, l: nat, s: Poly, fec: nat)
    requires Generates(f, lambda, l, s, fec)
    ensures 0 < |lambda| <= l + 1 && Elems(f, lambda) && Nonzero(lambda)
  {
    assert lambda[0] != 0;
  }

  lemma {:induction false} HaveFindings(f: GF, first: nat, fec: nat, a: seq<int>, s: Poly, table: seq<nat>,
      lambda: Poly, l: nat, roots: seq<nat>)
    requires |a| == Size(f) && |s| == fec && Syndromes(f, first, a, s)
    requires |table| == Size(f) + 1
    requires forall i :: 0 <= i <= Size(f) ==> FirstRootFactor(f, Alpha(f, Size(f) - i), first, table[i])
    requires Generates(f, lambda, l, s, fec) && Shortest(f, l, s, fec) && RootExponents(f, lambda, roots)
    ensures Findings(f, first, fec, a, s, table, lambda, l, roots)
    ensures Increasing(roots) && forall k :: 0 <= k < |roots| ==> 1 <= roots[k] <= Size(f)
  {
    hide Eval, Alpha, FirstRootFactor, Generates, Shortest, Syndromes;
  }

  /** What a true result means: the decoder ends in a codeword exactly when the block it was given
  lies within half the parity length of one. */
  lemma {:induction false} EndsInCodeword(f: GF, first: nat, fec: nat, before: seq<int>, after: seq<int>, ok: bool)
    requires |before| == |after| == Size(f)
    requires forall c :: Correctable(f, first, fec, before, c) ==> ok && Restores(f, before, after, c)
    requires ok ==> 2 * Distance(f, before, after) <= fec
    ensures ok && Codeword(f, first, fec, after) <==> exists c :: Correctable(f, first, fec, before, c)
  {
    hide Eval, Alpha, Distance, Symbol;
    if ok && Codeword(f, first, fec, after) {
      assert Correctable(f, first, fec, before, after);
    }
    if c :| Correctable(f, first, fec, before, c) {
      assert Load(f, after) == Load(f, c);
    }
  }

  lemma {:induction false} NoConv(f: GF, s: Poly, m: int)
    ensures Conv(f, [], s, m) == 0
  {
  }

  lemma {:induction false} ExponentEntry(f: GF, x: nat, first: nat, r: nat)
    requires Elem(f, x) && x != 0
    requires var n := 1 - first; n >= 0 || TableExponent(f, n) != 0 ==> r == TablePow(f, x, TableExponent(f, n))
    requires var n := 1 - first; n < 0 && TableExponent(f, n) == 0 ==> r == 1
    ensures FirstRootFactor(f, x, first, r)
  {
    hide Mul, Pow;
    var n := 1 - first;
    WrappedExponent(f, x, first);
    PowFirst(f, x);
    if n >= 0 {
      ModSmall(n, Size(f));
      ModSmall(n, Pow2(f.power));
    }
  }

  lemma {:induction false} NoRootsYet(f: GF, s: Poly)
    ensures RootsBelow(f, s, [], 1)
  {
  }

  lemma {:induction false} AllSearched(f: GF, s: Poly, roots: seq<nat>)
    requires RootsBelow(f, s, roots, Size(f) + 1)
    ensures RootExponents(f, s, roots)
  {
    hide Eval, Alpha;
  }
}
