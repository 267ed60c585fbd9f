/** The generator polynomial with a run of consecutive powers of the primitive element as roots. */
module Generator {
  import opened Bits
  import opened GaloisField
  import opened FieldTables
  import opened Polynomial
  import opened FieldPolynomial

  /** A polynomial of degree `count` with top coefficient `c`, whose roots among the powers of the
  primitive element are exactly those with exponents `first .. first + count`. */
  ghost predicate IsGenerator(f: GF, g: Poly, first: nat, count: nat, c: nat) {
    && Elems(f, g) && |g| == count + 1 && g[count] == c && c != 0
    && forall j :: 0 <= j < Size(f) ==> (Eval(f, g, Alpha(f, j)) == 0 <==> first <= j < first + count)
  }

  lemma {:induction false} ConvBeyond(f: GF, a: Poly, b: Poly, m: int)
    requires m + 1 >= |a| + |b|
    ensures Conv(f, a, b, m) == 0
  {
    ConvZero(f, a, b, m);
  }

  lemma {:induction false} ConvTop(f: GF, a: Poly, b: Poly)
    requires a != [] && b != []
    ensures Conv(f, a, b, |a| + |b| - 2) == Mul(f, a[|a| - 1], b[|b| - 1])
  {
    hide Xor, Mul, Conv;
    var k := |a| - 1;
    assert a == a[..k] + [a[k]];
    ConvSnoc(f, a[..k], a[k], b, |a| + |b| - 2);
    ConvBeyond(f, a[..k], b, |a| + |b| - 2);
    XorZero(Mul(f, a[k], b[|b| - 1]));
  }

  /** The stripped product of two polynomials with non-zero top coefficients. */
  lemma {:induction false} StrippedProduct(f: GF, a: Poly, b: Poly)
    requires Elems(f, a) && Elems(f, b) && a != [] && b != []
    requires a[|a| - 1] != 0 && b[|b| - 1] != 0
    ensures var r := Strip(PrefixProduct(f, a, b, |a| + |b|));
            |r| == |a| + |b| - 1 && r[|a| + |b| - 2] == Mul(f, a[|a| - 1], b[|b| - 1])
    ensures var r := Strip(PrefixProduct(f, a, b, |a| + |b|));
            forall x :: Eval(f, r, x) == Mul(f, Eval(f, a, x), Eval(f, b, x))
  {
    hide Xor, Mul, Conv, Eval, Strip;
    var k := |a| + |b|;
    var p := PrefixProduct(f, a, b, k);
    var r := Strip(p);
    ConvTop(f, a, b);
    ConvBeyond(f, a, b, k - 1);
    MulNonzero(f, a[|a| - 1], b[|b| - 1]);
    assert At(p, k - 2) == Conv(f, a, b, k - 2) && At(p, k - 1) == Conv(f, a, b, k - 1);
    assert At(r, k - 2) != 0 && At(r, k - 1) == 0;
    forall m: nat
      ensures At(r, m) == Conv(f, a, b, m)
    {
      assert At(r, m) == At(p, m);
      if m >= k { ConvBeyond(f, a, b, m); }
    }
    forall x
      ensures Eval(f, r, x) == Mul(f, Eval(f, a, x), Eval(f, b, x))
    {
      EvalConv(f, a, b, r, x);
    }
  }

  lemma {:induction false} EvalLinear(f: GF, e: nat, x: nat)
    requires Elem(f, e) && Elem(f, x)
    ensures Eval(f, [e, 1], x) == Xor(e, x)
  {
    hide Xor, Mul;
    assert [e, 1][1..] == [1];
    assert Eval(f, [1], x) == 1 by {
      assert Eval(f, [], x) == 0;
      assert [1][1..] == [];
      MulZero(f, x);
      XorZero(1);
    }
    MulOne(f, x);
  }

  /** Multiplying in the factor `x + alpha^i` adds exactly the root with exponent `i`. */
  lemma {:induction false} AddRoot(f: GF, g: Poly, first: nat, count: nat, c: nat)
    requires IsGenerator(f, g, first, count, c) && first + count < Size(f)
    ensures var e := Alpha(f, first + count);
            IsGenerator(f, Strip(PrefixProduct(f, g, [e, 1], |g| + 2)), first, count + 1, c)
  {
    hide Xor, Mul, Eval, Strip, Alpha;
    var e := Alpha(f, first + count);
    var r := Strip(PrefixProduct(f, g, [e, 1], |g| + 2));
    StrippedProduct(f, g, [e, 1]);
    MulOne(f, c);
    forall j | 0 <= j < Size(f)
      ensures Eval(f, r, Alpha(f, j)) == 0 <==> first <= j < first + count + 1
    {
      var x := Alpha(f, j);
      EvalLinear(f, e, x);
      XorZeroEqual(e, x);
      XorBound(e, x, f.power);
      EvalElem(f, g, x);
      if e == x {
        AlphaInjective(f, j, first + count);
      }
      if Eval(f, g, x) == 0 {
        MulZero(f, Xor(e, x));
      } else if e == x {
        MulZero(f, Eval(f, g, x));
      } else {
        MulNonzero(f, Eval(f, g, x), Xor(e, x));
      }
    }
  }

  lemma {:induction false} NoRoots(f: GF, first: nat, c: nat)
    requires Elem(f, c) && c != 0
    ensures IsGenerator(f, [c], first, 0, c)
  {
    forall j | 0 <= j < Size(f)
      ensures Eval(f, [c], Alpha(f, j)) != 0
    {
      assert [c][1..] == [];
      MulZero(f, Alpha(f, j));
      XorZero(c);
    }
  }

  /** Builds the generator in `g`. The initial assignment keeps a constant coefficient that `g`
  already has, so the result is monic when `g` starts out empty. */
  method MakeSequentialRootGenerator(f: GF, initialIndex: nat, numElements: nat, g: FieldPolynomial)
      returns (ok: bool)
    requires g.f == f && g.Ok()
    modifies g
    ensures g.Ok()
    ensures ok <==> initialIndex < Size(f) && initialIndex + numElements <= Size(f)
    ensures !ok ==> g.poly == old(g.poly)
    ensures ok && old(g.poly) == [] ==> IsGenerator(f, g.poly, initialIndex, numElements, 1)
    ensures ok && old(g.poly) != [] && old(g.poly)[0] != 0 ==>
              IsGenerator(f, g.poly, initialIndex, numElements, old(g.poly)[0])
  {
    hide Xor, Mul, Eval, Strip, Alpha, IsGenerator, Pow, TablePow;
    if initialIndex >= Size(f) || initialIndex + numElements > Size(f) {
      return false;
    }
    g.AssignElement(1);
    ghost var c := g.poly[0];
    if c != 0 {
      assert g.poly == [c];
      NoRoots(f, initialIndex, c);
    }
    var i := initialIndex;
    while i < initialIndex + numElements
      invariant initialIndex <= i <= initialIndex + numElements
      invariant g.Ok()
      invariant c != 0 ==> IsGenerator(f, g.poly, initialIndex, i - initialIndex, c)
    {
      var e := Exp(f, 2, i);
      ModSmall(i, Pow2(f.power));
      PowerOfTwo(f, i);
      var factor := new FieldPolynomial(f, [0, 1]);
      factor.AddElement(e);
      XorZero(e);
      assert factor.poly == [e, 1];
      if c != 0 {
        AddRoot(f, g.poly, initialIndex, i - initialIndex, c);
        assert initialIndex + (i - initialIndex) == i;
        GeneratorSize(f, g.poly, initialIndex, i - initialIndex, c);
      }
      g.MulAssign(factor.poly);
      i := i + 1;
    }
    ok := true;
  }

  lemma {:induction false} GeneratorSize(f: GF, g: Poly, first: nat, count: nat, c: nat)
    requires IsGenerator(f, g, first, count, c)
    ensures |g| == count + 1
  {
  }

  lemma {:induction false} PowerOfTwo(f: GF, i: nat)
    requires i <= Size(f)
    ensures TablePow(f, 2, i) == Alpha(f, i)
  {
    AlphaIsPower(f, i);
  }
}
