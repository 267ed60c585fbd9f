/** Roots of polynomials: synthetic division, the bound on the number of roots, and the formal
derivative of a polynomial in characteristic two. */
module Roots {
  import opened Bits
  import opened GaloisField
  import opened Polynomial

  ghost predicate Distinct(rs: seq<nat>) {
    forall i, j :: 0 <= i < j < |rs| ==> rs[i] != rs[j]
  }

  /** The quotient of `s` by `x - r`. */
  ghost function Quotient(f: GF, s: Poly, r: nat): (q: Poly)
    ensures |q| == if s == [] then 0 else |s| - 1
  {
    if |s| <= 1 then [] else [Eval(f, s[1..], r)] + Quotient(f, s[1..], r)
  }

  lemma {:induction false} QuotientElems(f: GF, s: Poly, r: nat)
    requires Elems(f, s)
    ensures Elems(f, Quotient(f, s, r))
    decreases |s|
  {
    hide Xor, Mul, Eval;
    if |s| > 1 {
      QuotientElems(f, s[1..], r);
      EvalElem(f, s[1..], r);
    }
  }

  lemma {:induction false} QuotientAt(f: GF, s: Poly, r: nat, m: nat)
    requires m + 1 < |s|
    ensures Quotient(f, s, r)[m] == Eval(f, s[m + 1..], r)
    decreases |s|
  {
    hide Xor, Mul, Eval;
    if m > 0 {
      QuotientAt(f, s[1..], r, m - 1);
      assert s[1..][m..] == s[m + 1..];
    }
  }

  /** `s(x) + s(r) = (x + r) q(x)`. */
  lemma {:induction false} FactorRoot(f: GF, s: Poly, r: nat, x: nat)
    ensures Xor(Eval(f, s, x), Eval(f, s, r)) == Mul(f, Xor(x, r), Eval(f, Quotient(f, s, r), x))
    decreases |s|
  {
    hide Xor, Mul;
    if s == [] {
      XorZero(0);
      MulZero(f, Xor(x, r));
    } else {
      var t := s[1..];
      var tx, tr := Eval(f, t, x), Eval(f, t, r);
      XorSwap(s[0], Mul(f, x, tx), s[0], Mul(f, r, tr));
      XorSelf(s[0]);
      XorZero(Xor(Mul(f, x, tx), Mul(f, r, tr)));
      if t == [] {
        MulZero(f, x);
        MulZero(f, r);
        XorZero(0);
        MulZero(f, Xor(x, r));
      } else {
        FactorRoot(f, t, r, x);
        var q := Quotient(f, s, r);
        assert q[1..] == Quotient(f, t, r);
        FactorStep(f, x, r, tx, tr, Eval(f, q[1..], x));
      }
    }
  }

  /** `x u + r v = (x + r)(v + x w)` when `u + v = (x + r) w`. */
  lemma {:induction false} FactorStep(f: GF, x: nat, r: nat, u: nat, v: nat, w: nat)
    requires Xor(u, v) == Mul(f, Xor(x, r), w)
    ensures Xor(Mul(f, x, u), Mul(f, r, v)) == Mul(f, Xor(x, r), Xor(v, Mul(f, x, w)))
  {
    hide Xor, Mul;
    var d := Xor(x, r);
    MulXor(f, d, v, Mul(f, x, w));
    MulAssoc(f, d, x, w);
    MulComm(f, d, x);
    MulAssoc(f, x, d, w);
    MulXor(f, x, u, v);
    MulComm(f, d, v);
    MulXor(f, v, x, r);
    MulComm(f, v, x);
    MulComm(f, v, r);
    var xu, xv, rv := Mul(f, x, u), Mul(f, x, v), Mul(f, r, v);
    assert Mul(f, d, Xor(v, Mul(f, x, w))) == Xor(Xor(xv, rv), Xor(xu, xv));
    XorComm(Xor(xv, rv), Xor(xu, xv));
    XorMiddle(xu, xv, rv);
  }

  /** A root of `s` other than `r` is a root of the quotient. */
  lemma {:induction false} OtherRoot(f: GF, s: Poly, r: nat, x: nat)
    requires Elems(f, s) && Elem(f, r) && Elem(f, x) && x != r
    requires Eval(f, s, r) == 0 && Eval(f, s, x) == 0
    ensures Eval(f, Quotient(f, s, r), x) == 0
  {
    hide Xor, Mul, Eval;
    var e := Eval(f, Quotient(f, s, r), x);
    FactorRoot(f, s, r, x);
    XorZero(0);
    XorZeroEqual(x, r);
    QuotientElems(f, s, r);
    EvalElem(f, Quotient(f, s, r), x);
    XorBound(x, r, f.power);
    if e != 0 {
      MulNonzero(f, Xor(x, r), e);
    }
  }

  ghost predicate Nonzero(s: Poly) {
    exists i :: 0 <= i < |s| && s[i] != 0
  }

  /** If the quotient vanishes and `r` is a root, the polynomial vanishes. */
  lemma {:induction false} QuotientNonzero(f: GF, s: Poly, r: nat)
    requires Nonzero(s) && Eval(f, s, r) == 0
    ensures Nonzero(Quotient(f, s, r))
    decreases |s|
  {
    hide Xor, Mul;
    var t := s[1..];
    var q := Quotient(f, s, r);
    XorZeroEqual(s[0], Mul(f, r, Eval(f, t, r)));
    MulZero(f, r);
    if t != [] && Eval(f, t, r) != 0 {
      assert q[0] != 0;
    } else {
      assert s[0] == 0;
      var i :| 0 <= i < |s| && s[i] != 0;
      assert t[i - 1] != 0;
      QuotientNonzero(f, t, r);
      var j :| 0 <= j < |Quotient(f, t, r)| && Quotient(f, t, r)[j] != 0;
      assert q[j + 1] != 0;
    }
  }

  ghost predicate AllRoots(f: GF, s: Poly, rs: seq<nat>) {
    forall i :: 0 <= i < |rs| ==> Elem(f, rs[i]) && Eval(f, s, rs[i]) == 0
  }

  /** A non-zero polynomial has fewer roots than coefficients. */
  lemma {:induction false} RootBound(f: GF, s: Poly, rs: seq<nat>)
    requires Elems(f, s) && Nonzero(s) && Distinct(rs) && AllRoots(f, s, rs)
    ensures |rs| < |s|
    decreases |rs|
  {
    hide Xor, Mul, Eval;
    if rs != [] {
      var r, rest := rs[0], rs[1..];
      var q := Quotient(f, s, r);
      forall i | 0 <= i < |rest|
        ensures Eval(f, q, rest[i]) == 0
      {
        OtherRoot(f, s, r, rs[i + 1]);
      }
      QuotientElems(f, s, r);
      QuotientNonzero(f, s, r);
      RootBound(f, q, rest);
    }
  }

  // ---------------------------------------------------------------------------------------
  // Derivative
  // ---------------------------------------------------------------------------------------

  /** The formal derivative: only odd powers survive in characteristic two. */
  ghost function Derivative(s: Poly): (d: Poly) {
    if |s| <= 1 then [] else [s[1], 0] + Derivative(s[2..])
  }

  lemma {:induction false} DerivativeAt(s: Poly, i: nat)
    ensures At(Derivative(s), i) == if i % 2 == 0 then At(s, i + 1) else 0
    decreases |s|
  {
    if |s| > 1 {
      var d := Derivative(s);
      if i >= 2 {
        DerivativeAt(s[2..], i - 2);
        assert At(d, i) == At(Derivative(s[2..]), i - 2);
        assert At(s, i + 1) == At(s[2..], i - 1);
      }
    }
  }

  /** The derivative agrees at `r` with the quotient by `x - r`. */
  lemma {:induction false} DerivativeAtRoot(f: GF, s: Poly, r: nat)
    ensures Eval(f, Derivative(s), r) == Eval(f, Quotient(f, s, r), r)
    decreases |s|
  {
    hide Xor, Mul;
    if |s| > 1 {
      var u := s[2..];
      DerivativeAtRoot(f, u, r);
      var d, q := Derivative(s), Quotient(f, s, r);
      var d', q' := Derivative(u), Quotient(f, u, r);
      var eu, ed := Eval(f, u, r), Eval(f, d', r);
      assert d[1..][1..] == d';
      assert d[1..][0] == 0;
      XorZero(Mul(f, r, ed));
      var red := Mul(f, r, Mul(f, r, ed));
      assert Eval(f, d, r) == Xor(s[1], red);
      assert s[1..][1..] == u;
      var reu := Mul(f, r, eu);
      assert q[0] == Xor(s[1], reu);
      if u == [] {
        assert q[1..] == [];
        MulZero(f, r);
        XorZero(s[1]);
      } else {
        assert q[1..] == Quotient(f, s[1..], r);
        assert q[1..] == [eu] + q';
        assert q[1..][1..] == q';
        assert Eval(f, q[1..], r) == Xor(eu, Mul(f, r, ed));
        MulXor(f, r, eu, Mul(f, r, ed));
        XorMiddle(s[1], reu, red);
      }
    }
  }
}
