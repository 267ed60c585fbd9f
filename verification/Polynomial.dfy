/** Polynomials over the field as coefficient sequences, lowest degree first, and the algebra
that the encoder and the decoder rely on. */
module Polynomial {
  import opened Bits
  import opened GaloisField

  type Poly = seq<nat>

  function At(s: Poly, i: int): nat {
    if 0 <= i < |s| then s[i] else 0
  }

  /** Equal as polynomials: the same coefficients up to trailing zeros. */
  ghost predicate Same(s: Poly, t: Poly) {
    forall i: nat :: At(s, i) == At(t, i)
  }

  // ---------------------------------------------------------------------------------------
  // Evaluation
  // ---------------------------------------------------------------------------------------

  /** The value at `x`, by Horner's rule. */
  function Eval(f: GF, s: Poly, x: nat): nat {
    if s == [] then 0 else Xor(s[0], Mul(f, x, Eval(f, s[1..], x)))
  }

  lemma {:induction false} EvalElem(f: GF, s: Poly, x: nat)
    requires Elems(f, s)
    ensures Elem(f, Eval(f, s, x))
  {
    hide Xor, Mul;
    if s != [] {
      XorBound(s[0], Mul(f, x, Eval(f, s[1..], x)), f.power);
    }
  }

  lemma {:induction false} EvalSnoc(f: GF, s: Poly, c: nat, x: nat)
    requires Elem(f, c)
    ensures Eval(f, s + [c], x) == Xor(Eval(f, s, x), Mul(f, Pow(f, x, |s|), c))
    decreases |s|
  {
    hide Xor, Mul;
    if s == [] {
      assert (s + [c])[1..] == [];
      MulZero(f, x);
      XorZero(c);
      MulOne(f, c);
    } else {
      var t := s[1..];
      assert (s + [c])[1..] == t + [c];
      EvalSnoc(f, t, c, x);
      MulXor(f, x, Eval(f, t, x), Mul(f, Pow(f, x, |t|), c));
      MulAssoc(f, x, Pow(f, x, |t|), c);
      XorAssoc(s[0], Mul(f, x, Eval(f, t, x)), Mul(f, Pow(f, x, |s|), c));
    }
  }

  /** Evaluation does not see trailing zeros. */
  lemma {:induction false} EvalSame(f: GF, s: Poly, t: Poly, x: nat)
    requires Same(s, t)
    ensures Eval(f, s, x) == Eval(f, t, x)
    decreases |s| + |t|
  {
    hide Xor, Mul;
    if s != [] || t != [] {
      var s', t' := if s == [] then s else s[1..], if t == [] then t else t[1..];
      forall i: nat
        ensures At(s', i) == At(t', i)
      {
        assert At(s, i + 1) == At(t, i + 1);
      }
      EvalSame(f, s', t', x);
      assert At(s, 0) == At(t, 0);
      MulZero(f, x);
      XorZero(0);
    }
  }

  // ---------------------------------------------------------------------------------------
  // Sums, multiples and products
  // ---------------------------------------------------------------------------------------

  function Sum(s: Poly, t: Poly): (r: Poly)
    ensures |r| == if |s| < |t| then |t| else |s|
    ensures forall i: nat :: At(r, i) == Xor(At(s, i), At(t, i))
  {
    seq(if |s| < |t| then |t| else |s|, i requires 0 <= i => Xor(At(s, i), At(t, i)))
  }

  function Scale(f: GF, c: nat, s: Poly): (r: Poly)
    ensures |r| == |s| && Elems(f, r)
    ensures forall i: nat :: At(r, i) == Mul(f, c, At(s, i))
  {
    seq(|s|, i requires 0 <= i < |s| => Mul(f, c, s[i]))
  }

  /** The coefficient of degree `m` in the product of `a` and `b`. */
  function Conv(f: GF, a: Poly, b: Poly, m: int): (r: nat)
    ensures Elem(f, r)
    decreases |a|
  {
    if a == [] || m < 0 then 0
    else
      XorBound(Mul(f, a[0], At(b, m)), Conv(f, a[1..], b, m - 1), f.power);
      Xor(Mul(f, a[0], At(b, m)), Conv(f, a[1..], b, m - 1))
  }

  lemma {:induction false} EvalSum(f: GF, s: Poly, t: Poly, x: nat)
    ensures Eval(f, Sum(s, t), x) == Xor(Eval(f, s, x), Eval(f, t, x))
    decreases |s| + |t|
  {
    hide Xor, Mul;
    var r := Sum(s, t);
    if s == [] {
      SumZero(t);
      XorZero(Eval(f, t, x));
    } else if t == [] {
      SumZero(s);
      XorZero(Eval(f, s, x));
    } else {
      SumTail(s, t);
      EvalSum(f, s[1..], t[1..], x);
      assert r[0] == At(r, 0) == Xor(At(s, 0), At(t, 0));
      MulXor(f, x, Eval(f, s[1..], x), Eval(f, t[1..], x));
      XorSwap(s[0], t[0], Mul(f, x, Eval(f, s[1..], x)), Mul(f, x, Eval(f, t[1..], x)));
    }
  }

  lemma {:induction false} SumZero(s: Poly)
    ensures Sum(s, []) == s && Sum([], s) == s
  {
    hide Xor;
    forall i | 0 <= i < |s|
      ensures Sum(s, [])[i] == s[i] && Sum([], s)[i] == s[i]
    {
      XorZero(s[i]);
    }
  }

  lemma {:induction false} SumTail(s: Poly, t: Poly)
    requires s != [] && t != []
    ensures Sum(s, t)[1..] == Sum(s[1..], t[1..])
  {
    hide Xor;
    var u, v := Sum(s, t), Sum(s[1..], t[1..]);
    forall i | 0 <= i < |v|
      ensures u[1..][i] == v[i]
    {
      assert u[i + 1] == Xor(At(s, i + 1), At(t, i + 1));
      assert v[i] == Xor(At(s[1..], i), At(t[1..], i));
    }
  }

  lemma {:induction false} EvalScale(f: GF, c: nat, s: Poly, x: nat)
    ensures Eval(f, Scale(f, c, s), x) == Mul(f, c, Eval(f, s, x))
    decreases |s|
  {
    hide Xor, Mul;
    if s == [] {
      MulZero(f, c);
    } else {
      var t := s[1..];
      assert Scale(f, c, s)[1..] == Scale(f, c, t);
      EvalScale(f, c, t, x);
      MulXor(f, c, s[0], Mul(f, x, Eval(f, t, x)));
      MulAssoc(f, c, x, Eval(f, t, x));
      MulComm(f, c, x);
      MulAssoc(f, x, c, Eval(f, t, x));
    }
  }

  /** Evaluation turns a product of polynomials into a product of values. */
  lemma {:induction false} EvalConv(f: GF, a: Poly, b: Poly, r: Poly, x: nat)
    requires forall m: nat :: At(r, m) == Conv(f, a, b, m)
    ensures Eval(f, r, x) == Mul(f, Eval(f, a, x), Eval(f, b, x))
    decreases |a|
  {
    hide Xor, Mul;
    if a == [] {
      EvalSame(f, r, [], x);
      MulZero(f, Eval(f, b, x));
    } else {
      // r = a[0] * b + x * q, where q is the product of the tail of a with b
      var a' := a[1..];
      var q := seq(|r| + |b|, m requires 0 <= m => Conv(f, a', b, m));
      var k := |r| + |b|;
      forall m: nat
        ensures At(q, m) == Conv(f, a', b, m)
      {
        if m >= k {
          assert At(r, m + 1) == Conv(f, a, b, m + 1);
          MulZero(f, a[0]);
          XorZero(Conv(f, a', b, m));
        }
      }
      EvalConv(f, a', b, q, x);
      var u, v := Scale(f, a[0], b), [0] + q;
      forall m: nat
        ensures At(Sum(u, v), m) == At(r, m)
      {
        assert At(r, m) == Conv(f, a, b, m);
        assert At(v, m) == Conv(f, a', b, m - 1) by {
          if m > 0 { assert At(v, m) == At(q, m - 1); }
        }
        assert At(u, m) == Mul(f, a[0], At(b, m));
      }
      EvalSame(f, r, Sum(u, v), x);
      EvalSum(f, u, v, x);
      EvalScale(f, a[0], b, x);
      assert v[1..] == q;
      XorZero(Mul(f, x, Eval(f, q, x)));
      var ea, eb := Eval(f, a', x), Eval(f, b, x);
      MulAssoc(f, x, ea, eb);
      MulComm(f, eb, a[0]);
      MulComm(f, eb, Mul(f, x, ea));
      MulXor(f, eb, a[0], Mul(f, x, ea));
      MulComm(f, eb, Eval(f, a, x));
    }
  }

  // ---------------------------------------------------------------------------------------
  // Convolution
  // ---------------------------------------------------------------------------------------

  lemma {:induction false} ConvShift(f: GF, a: Poly, b: Poly, m: int)
    ensures Conv(f, [0] + a, b, m) == Conv(f, a, b, m - 1)
  {
    hide Xor, Mul;
    assert ([0] + a)[1..] == a;
    MulZero(f, At(b, m));
    XorZero(Conv(f, a, b, m - 1));
  }

  lemma {:induction false} ConvSum(f: GF, s: Poly, t: Poly, b: Poly, m: int)
    ensures Conv(f, Sum(s, t), b, m) == Xor(Conv(f, s, b, m), Conv(f, t, b, m))
    decreases |s| + |t|
  {
    hide Xor, Mul;
    if s == [] {
      SumZero(t);
      XorZero(Conv(f, t, b, m));
    } else if t == [] {
      SumZero(s);
      XorZero(Conv(f, s, b, m));
    } else if m < 0 {
      XorZero(0);
    } else {
      var r := Sum(s, t);
      SumTail(s, t);
      ConvSum(f, s[1..], t[1..], b, m - 1);
      assert r[0] == At(r, 0) == Xor(At(s, 0), At(t, 0));
      var c := At(b, m);
      MulXor(f, c, s[0], t[0]);
      MulComm(f, c, s[0]);
      MulComm(f, c, t[0]);
      MulComm(f, c, r[0]);
      XorSwap(Mul(f, s[0], c), Mul(f, t[0], c), Conv(f, s[1..], b, m - 1), Conv(f, t[1..], b, m - 1));
    }
  }

  lemma {:induction false} ConvScale(f: GF, c: nat, s: Poly, b: Poly, m: int)
    ensures Conv(f, Scale(f, c, s), b, m) == Mul(f, c, Conv(f, s, b, m))
    decreases |s|
  {
    hide Xor, Mul;
    if s == [] || m < 0 {
      MulZero(f, c);
    } else {
      assert Scale(f, c, s)[1..] == Scale(f, c, s[1..]);
      ConvScale(f, c, s[1..], b, m - 1);
      MulAssoc(f, c, s[0], At(b, m));
      MulXor(f, c, Mul(f, s[0], At(b, m)), Conv(f, s[1..], b, m - 1));
    }
  }

  lemma {:induction false} ConvSnoc(f: GF, a: Poly, c: nat, b: Poly, m: int)
    ensures Conv(f, a + [c], b, m) == Xor(Conv(f, a, b, m), Mul(f, c, At(b, m - |a|)))
    decreases |a|
  {
    hide Xor, Mul;
    MulZero(f, c);
    if m < 0 {
      XorZero(0);
    } else if a == [] {
      assert a + [c] == [c];
      XorZero(Mul(f, c, At(b, m)));
    } else {
      assert (a + [c])[1..] == a[1..] + [c];
      ConvSnoc(f, a[1..], c, b, m - 1);
      XorAssoc(Mul(f, a[0], At(b, m)), Conv(f, a[1..], b, m - 1), Mul(f, c, At(b, m - |a|)));
    }
  }

  /** Trailing zeros of the first factor do not matter. */
  lemma {:induction false} ConvSame(f: GF, s: Poly, t: Poly, b: Poly, m: int)
    requires Same(s, t)
    ensures Conv(f, s, b, m) == Conv(f, t, b, m)
    decreases |s| + |t|
  {
    hide Xor, Mul;
    if m >= 0 && (s != [] || t != []) {
      var s', t' := if s == [] then s else s[1..], if t == [] then t else t[1..];
      forall i: nat
        ensures At(s', i) == At(t', i)
      {
        assert At(s, i + 1) == At(t, i + 1);
      }
      ConvSame(f, s', t', b, m - 1);
      assert At(s, 0) == At(t, 0);
      MulZero(f, At(b, m));
      XorZero(0);
    }
  }

  /** The convolution is zero when every coefficient of `b` that it reaches is zero. */
  lemma {:induction false} ConvZero(f: GF, a: Poly, b: Poly, m: int)
    requires forall j :: m - |a| < j <= m ==> At(b, j) == 0
    ensures Conv(f, a, b, m) == 0
    decreases |a|
  {
    hide Xor, Mul;
    if a != [] && m >= 0 {
      ConvZero(f, a[1..], b, m - 1);
      assert At(b, m) == 0;
      MulZero(f, a[0]);
      XorZero(0);
    }
  }

  /** Linearity in the second factor, as far as the convolution reaches into it. */
  lemma {:induction false} ConvXorRight(f: GF, a: Poly, u: Poly, v: Poly, w: Poly, m: int)
    requires forall j :: 0 <= j <= m ==> At(w, j) == Xor(At(u, j), At(v, j))
    ensures Conv(f, a, w, m) == Xor(Conv(f, a, u, m), Conv(f, a, v, m))
    decreases |a|
  {
    hide Xor, Mul;
    if a == [] || m < 0 {
      XorZero(0);
    } else {
      ConvXorRight(f, a[1..], u, v, w, m - 1);
      assert At(w, m) == Xor(At(u, m), At(v, m));
      MulXor(f, a[0], At(u, m), At(v, m));
      XorSwap(Mul(f, a[0], At(u, m)), Mul(f, a[0], At(v, m)), Conv(f, a[1..], u, m - 1), Conv(f, a[1..], v, m - 1));
    }
  }

  lemma {:induction false} ConvScaleRight(f: GF, a: Poly, c: nat, u: Poly, w: Poly, m: int)
    requires forall j :: 0 <= j <= m ==> At(w, j) == Mul(f, c, At(u, j))
    ensures Conv(f, a, w, m) == Mul(f, c, Conv(f, a, u, m))
    decreases |a|
  {
    hide Xor, Mul;
    if a == [] || m < 0 {
      MulZero(f, c);
    } else {
      ConvScaleRight(f, a[1..], c, u, w, m - 1);
      assert At(w, m) == Mul(f, c, At(u, m));
      MulAssoc(f, a[0], c, At(u, m));
      MulComm(f, a[0], c);
      MulAssoc(f, c, a[0], At(u, m));
      MulXor(f, c, Mul(f, a[0], At(u, m)), Conv(f, a[1..], u, m - 1));
    }
  }

  lemma {:induction false} ConvShiftRight(f: GF, a: Poly, u: Poly, w: Poly, m: int)
    requires forall j :: 0 <= j <= m ==> At(w, j) == At(u, j - 1)
    ensures Conv(f, a, w, m) == Conv(f, a, u, m - 1)
    decreases |a|
  {
    hide Xor, Mul;
    if a != [] && m >= 0 {
      ConvShiftRight(f, a[1..], u, w, m - 1);
      assert At(w, m) == At(u, m - 1);
      if m == 0 {
        MulZero(f, a[0]);
        XorZero(0);
      }
    }
  }

  /** The first `k` coefficients of the product of `a` and `b`. */
  function PrefixProduct(f: GF, a: Poly, b: Poly, k: nat): (r: Poly)
    ensures |r| == k && Elems(f, r)
    ensures forall m :: 0 <= m < k ==> At(r, m) == Conv(f, a, b, m)
  {
    seq(k, m requires 0 <= m => Conv(f, a, b, m))
  }

  /** `a (b s) = b (a s)`, coefficient by coefficient. */
  lemma {:induction false} ConvExchange(f: GF, a: Poly, b: Poly, s: Poly, k: nat, m: int)
    requires m < k
    ensures Conv(f, a, PrefixProduct(f, b, s, k), m) == Conv(f, b, PrefixProduct(f, a, s, k), m)
    decreases |a|
  {
    hide Xor, Mul;
    var pa, pb := PrefixProduct(f, a, s, k), PrefixProduct(f, b, s, k);
    if m < 0 {
    } else if a == [] {
      ConvZero(f, b, pa, m);
    } else {
      var a' := a[1..];
      var pa' := PrefixProduct(f, a', s, k);
      ConvExchange(f, a', b, s, k, m - 1);
      // the product of a with s is a[0] * s plus the shifted product of the tail
      var u, v := Scale(f, a[0], s), [0] + pa';
      forall j | 0 <= j <= m
        ensures At(pa, j) == Xor(At(u, j), At(v, j))
        ensures At(v, j) == At(pa', j - 1)
        ensures At(u, j) == Mul(f, a[0], At(s, j))
      {
        assert At(pa, j) == Conv(f, a, s, j);
        assert At(v, j) == Conv(f, a', s, j - 1) by {
          if j > 0 { assert At(v, j) == At(pa', j - 1); }
        }
      }
      ConvXorRight(f, b, u, v, pa, m);
      ConvScaleRight(f, b, a[0], s, u, m);
      ConvShiftRight(f, b, pa', v, m);
      assert At(pb, m) == Conv(f, b, s, m);
    }
  }
}
