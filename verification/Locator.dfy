/** The theory behind error correction: a sequence of syndromes is a sum of geometric series,
one for each error, and the shortest recurrence that the sequence obeys determines them. */
module Locator {
  import opened Bits
  import opened GaloisField
  import opened Polynomial
  import opened Roots

  /** One geometric series `w x^m`. */
  datatype Term = Term(x: nat, w: nat)

  function TermSum(f: GF, ts: seq<Term>, m: nat): (r: nat)
    ensures Elem(f, r)
  {
    if ts == [] then 0
    else
      XorBound(Mul(f, ts[0].w, Pow(f, ts[0].x, m)), TermSum(f, ts[1..], m), f.power);
      Xor(Mul(f, ts[0].w, Pow(f, ts[0].x, m)), TermSum(f, ts[1..], m))
  }

  ghost predicate Series(f: GF, ts: seq<Term>) {
    && (forall i :: 0 <= i < |ts| ==> Elem(f, ts[i].x) && ts[i].x != 0 && Elem(f, ts[i].w))
    && (forall i, j :: 0 <= i < j < |ts| ==> ts[i].x != ts[j].x)
  }

  // ---------------------------------------------------------------------------------------
  // Independence of geometric series
  // ---------------------------------------------------------------------------------------

  /** The weights after taking `x0` times each value away from its successor. */
  ghost function Damp(f: GF, ts: seq<Term>, x0: nat): (us: seq<Term>)
    ensures |us| == |ts|
    ensures forall i :: 0 <= i < |ts| ==> us[i] == Term(ts[i].x, Mul(f, ts[i].w, Xor(ts[i].x, x0)))
  {
    if ts == [] then []
    else [Term(ts[0].x, Mul(f, ts[0].w, Xor(ts[0].x, x0)))] + Damp(f, ts[1..], x0)
  }

  lemma {:induction false} DampTerm(f: GF, x: nat, w: nat, x0: nat, m: nat)
    ensures Mul(f, Mul(f, w, Xor(x, x0)), Pow(f, x, m))
         == Xor(Mul(f, w, Pow(f, x, m + 1)), Mul(f, x0, Mul(f, w, Pow(f, x, m))))
  {
    hide Xor, Mul;
    var p := Pow(f, x, m);
    MulAssoc(f, w, Xor(x, x0), p);
    MulComm(f, Xor(x, x0), p);
    MulXor(f, p, x, x0);
    MulComm(f, p, x);
    MulXor(f, w, Mul(f, x, p), Mul(f, p, x0));
    MulAssoc(f, w, p, x0);
    MulComm(f, Mul(f, w, p), x0);
  }

  lemma {:induction false} DampSum(f: GF, ts: seq<Term>, x0: nat, m: nat)
    ensures TermSum(f, Damp(f, ts, x0), m) == Xor(TermSum(f, ts, m + 1), Mul(f, x0, TermSum(f, ts, m)))
    decreases |ts|
  {
    hide Xor, Mul, Pow;
    if ts == [] {
      MulZero(f, x0);
      XorZero(0);
    } else {
      var t, us := ts[0], ts[1..];
      assert Damp(f, ts, x0)[1..] == Damp(f, us, x0);
      DampSum(f, us, x0, m);
      DampTerm(f, t.x, t.w, x0, m);
      var a, b := Mul(f, t.w, Pow(f, t.x, m + 1)), Mul(f, t.w, Pow(f, t.x, m));
      MulXor(f, x0, b, TermSum(f, us, m));
      XorSwap(a, Mul(f, x0, b), TermSum(f, us, m + 1), Mul(f, x0, TermSum(f, us, m)));
    }
  }

  lemma {:induction false} ZeroWeights(f: GF, ts: seq<Term>, m: nat)
    requires forall i :: 0 <= i < |ts| ==> ts[i].w == 0
    ensures TermSum(f, ts, m) == 0
    decreases |ts|
  {
    hide Xor, Mul, Pow;
    if ts != [] {
      ZeroWeights(f, ts[1..], m);
      MulZero(f, Pow(f, ts[0].x, m));
      XorZero(0);
    }
  }

  /** Series with distinct ratios are independent: if as many consecutive sums vanish as there
  are series, every weight is zero. */
  lemma {:induction false} Independence(f: GF, ts: seq<Term>, l: nat)
    requires Series(f, ts)
    requires forall m :: l <= m < l + |ts| ==> TermSum(f, ts, m) == 0
    ensures forall i :: 0 <= i < |ts| ==> ts[i].w == 0
    decreases |ts|
  {
    hide Xor, Mul, Pow;
    if ts != [] {
      var t, us := ts[0], ts[1..];
      var vs := Damp(f, us, t.x);
      forall m | l <= m < l + |us|
        ensures TermSum(f, vs, m) == 0
      {
        DampSum(f, us, t.x, m);
        DampFirst(f, ts, m);
        MulZero(f, t.x);
        XorZero(0);
      }
      Independence(f, vs, l);
      forall i | 0 <= i < |us|
        ensures us[i].w == 0
      {
        DampedZero(f, ts[i + 1].x, ts[i + 1].w, t.x);
        assert vs[i].w == 0;
      }
      ZeroWeights(f, us, l);
      FirstZero(f, ts, l);
    }
  }

  /** Taking the ratio of the first series away removes that series. */
  lemma {:induction false} DampFirst(f: GF, ts: seq<Term>, m: nat)
    requires ts != []
    ensures Xor(TermSum(f, ts, m + 1), Mul(f, ts[0].x, TermSum(f, ts, m)))
         == Xor(TermSum(f, ts[1..], m + 1), Mul(f, ts[0].x, TermSum(f, ts[1..], m)))
  {
    hide Xor, Mul;
    var t, us := ts[0], ts[1..];
    var a, b := Mul(f, t.w, Pow(f, t.x, m + 1)), Mul(f, t.w, Pow(f, t.x, m));
    MulXor(f, t.x, b, TermSum(f, us, m));
    MulAssoc(f, t.x, t.w, Pow(f, t.x, m));
    MulComm(f, t.x, t.w);
    MulAssoc(f, t.w, t.x, Pow(f, t.x, m));
    assert Mul(f, t.x, b) == a;
    XorSwap(a, TermSum(f, us, m + 1), a, Mul(f, t.x, TermSum(f, us, m)));
    XorSelf(a);
    XorZero(Xor(TermSum(f, us, m + 1), Mul(f, t.x, TermSum(f, us, m))));
  }

  lemma {:induction false} DampedZero(f: GF, x: nat, w: nat, x0: nat)
    requires Elem(f, x) && Elem(f, w) && Elem(f, x0) && x != x0
    ensures Mul(f, w, Xor(x, x0)) == 0 ==> w == 0
  {
    hide Xor, Mul;
    XorZeroEqual(x, x0);
    XorBound(x, x0, f.power);
    if w != 0 {
      MulNonzero(f, w, Xor(x, x0));
    }
  }

  lemma {:induction false} FirstZero(f: GF, ts: seq<Term>, l: nat)
    requires Series(f, ts) && ts != []
    requires TermSum(f, ts, l) == 0 && TermSum(f, ts[1..], l) == 0
    ensures ts[0].w == 0
  {
    hide Xor, Mul, Pow;
    var t := ts[0];
    XorZero(Mul(f, t.w, Pow(f, t.x, l)));
    PowNonzero(f, t.x, l);
    if t.w != 0 {
      MulNonzero(f, t.w, Pow(f, t.x, l));
    }
  }

  // ---------------------------------------------------------------------------------------
  // Recurrences on sums of geometric series
  // ---------------------------------------------------------------------------------------

  function Inv(f: GF, x: nat): (y: nat)
    requires Elem(f, x)
    ensures Elem(f, y)
  {
    Div(f, 1, x)
  }

  lemma {:induction false} InvMul(f: GF, x: nat)
    requires Elem(f, x) && x != 0
    ensures Mul(f, x, Inv(f, x)) == 1 && Mul(f, Inv(f, x), x) == 1 && Inv(f, x) != 0
  {
    DivMul(f, 1, x);
    MulComm(f, x, Inv(f, x));
  }

  function Powers(f: GF, x: nat, k: nat): (r: Poly)
    ensures |r| == k
    ensures forall j :: 0 <= j < k ==> At(r, j) == Pow(f, x, j)
  {
    seq(k, j requires 0 <= j => Pow(f, x, j))
  }

  function Drop(s: Poly, i: nat): Poly {
    if i <= |s| then s[i..] else []
  }

  /** A polynomial convolved with the powers of `x`, in terms of its value at the inverse of `x`. */
  lemma {:induction false} ConvPowers(f: GF, a: Poly, x: nat, k: nat, m: nat)
    requires Elems(f, a) && Elem(f, x) && x != 0 && m < k
    ensures Conv(f, a, Powers(f, x, k), m)
         == Xor(Mul(f, Pow(f, x, m), Eval(f, a, Inv(f, x))),
                Mul(f, Inv(f, x), Eval(f, Drop(a, m + 1), Inv(f, x))))
    decreases |a|
  {
    hide Xor, Mul, Inv;
    var y, g := Inv(f, x), Powers(f, x, k);
    var p := Pow(f, x, m);
    if a == [] {
      MulZero(f, p);
      MulZero(f, y);
      XorZero(0);
    } else {
      var a' := a[1..];
      var e := Eval(f, a', y);
      MulXor(f, p, a[0], Mul(f, y, e));
      MulComm(f, p, a[0]);
      assert At(g, m) == p;
      if m == 0 {
        assert Drop(a, 1) == a';
        MulOne(f, a[0]);
        XorZero(a[0]);
        MulOne(f, Mul(f, y, e));
        XorCancel(Mul(f, y, e), a[0]);
      } else {
        ConvPowers(f, a', x, k, m - 1);
        assert Drop(a', m) == Drop(a, m + 1);
        var p' := Pow(f, x, m - 1);
        MulAssoc(f, p, y, e);
        MulComm(f, x, p');
        MulAssoc(f, p', x, y);
        InvMul(f, x);
        MulOne(f, p');
        assert Mul(f, p, y) == p';
        XorAssoc(Mul(f, a[0], p), Mul(f, p', e), Mul(f, y, Eval(f, Drop(a, m + 1), y)));
      }
    }
  }

  /** `s` lists the sums of the series from exponent zero on. */
  ghost predicate Sums(f: GF, ts: seq<Term>, s: Poly) {
    forall j :: 0 <= j < |s| ==> s[j] == TermSum(f, ts, j)
  }

  function SumSeq(f: GF, ts: seq<Term>, k: nat): (s: Poly)
    ensures |s| == k && Sums(f, ts, s) && Elems(f, s)
  {
    seq(k, j requires 0 <= j => TermSum(f, ts, j))
  }

  /** The weighted sum of the convolutions with the single series. */
  ghost function ConvTerms(f: GF, a: Poly, ts: seq<Term>, k: nat, m: nat): nat {
    if ts == [] then 0
    else Xor(Mul(f, ts[0].w, Conv(f, a, Powers(f, ts[0].x, k), m)), ConvTerms(f, a, ts[1..], k, m))
  }

  lemma {:induction false} ConvSums(f: GF, a: Poly, ts: seq<Term>, s: Poly, m: nat)
    requires Sums(f, ts, s) && m < |s|
    ensures Conv(f, a, s, m) == ConvTerms(f, a, ts, |s|, m)
    decreases |ts|
  {
    hide Xor, Mul, Pow, Conv;
    var k := |s|;
    if ts == [] {
      ConvZero(f, a, s, m);
    } else {
      var t, us := ts[0], ts[1..];
      var g, rest := Powers(f, t.x, k), SumSeq(f, us, k);
      var u := Scale(f, t.w, g);
      ConvSums(f, a, us, rest, m);
      forall j | 0 <= j <= m
        ensures At(s, j) == Xor(At(u, j), At(rest, j))
      {
        assert At(u, j) == Mul(f, t.w, At(g, j));
      }
      ConvXorRight(f, a, u, rest, s, m);
      ConvScaleRight(f, a, t.w, g, u, m);
    }
  }

  // ---------------------------------------------------------------------------------------
  // The recurrence of the true locator
  // ---------------------------------------------------------------------------------------

  /** `a` is the connection polynomial of a linear recurrence of length `l` that generates the
  first `k` elements of `s`. */
  ghost predicate Generates(f: GF, a: Poly, l: nat, s: Poly, k: nat) {
    && 0 < |a| <= l + 1 && a[0] == 1 && Elems(f, a)
    && forall m :: l <= m < k ==> Conv(f, a, s, m) == 0
  }

  /** The error locator: the product of `1 - x_i z` over all series. */
  ghost function LocatorOf(f: GF, ts: seq<Term>): (a: Poly)
    ensures |a| == |ts| + 1
  {
    if ts == [] then [1]
    else Sum(LocatorOf(f, ts[1..]), [0] + Scale(f, ts[0].x, LocatorOf(f, ts[1..])))
  }

  lemma {:induction false} LocatorShape(f: GF, ts: seq<Term>)
    ensures LocatorOf(f, ts)[0] == 1 && Elems(f, LocatorOf(f, ts))
    decreases |ts|
  {
    hide Xor, Mul;
    if ts != [] {
      var b := LocatorOf(f, ts[1..]);
      var c := [0] + Scale(f, ts[0].x, b);
      var a := LocatorOf(f, ts);
      LocatorShape(f, ts[1..]);
      XorZero(1);
      assert a[0] == At(a, 0) == Xor(At(b, 0), At(c, 0));
      forall i | 0 <= i < |a|
        ensures Elem(f, a[i])
      {
        assert a[i] == At(a, i) == Xor(At(b, i), At(c, i));
        XorBound(At(b, i), At(c, i), f.power);
      }
    }
  }

  lemma {:induction false} LocatorRoot(f: GF, ts: seq<Term>, i: nat)
    requires Series(f, ts) && i < |ts|
    ensures Eval(f, LocatorOf(f, ts), Inv(f, ts[i].x)) == 0
    decreases |ts|
  {
    hide Xor, Mul, Inv;
    var x, z := ts[0].x, Inv(f, ts[i].x);
    var b := LocatorOf(f, ts[1..]);
    var c := [0] + Scale(f, x, b);
    var e := Eval(f, b, z);
    LocatorShape(f, ts[1..]);
    EvalElem(f, b, z);
    EvalSum(f, b, c, z);
    EvalScale(f, x, b, z);
    assert c[1..] == Scale(f, x, b);
    XorZero(Mul(f, z, Mul(f, x, e)));
    assert Eval(f, LocatorOf(f, ts), z) == Xor(e, Mul(f, z, Mul(f, x, e)));
    if i == 0 {
      MulAssoc(f, z, x, e);
      InvMul(f, x);
      MulOne(f, e);
      XorSelf(e);
    } else {
      LocatorRoot(f, ts[1..], i - 1);
      MulZero(f, x);
      MulZero(f, z);
      XorZero(0);
    }
  }

  lemma {:induction false} ConvTermsZero(f: GF, a: Poly, ts: seq<Term>, k: nat, m: nat)
    requires Series(f, ts) && Elems(f, a) && |a| <= m + 1 && m < k
    requires forall i :: 0 <= i < |ts| ==> Eval(f, a, Inv(f, ts[i].x)) == 0
    ensures ConvTerms(f, a, ts, k, m) == 0
    decreases |ts|
  {
    hide Xor, Mul, Inv, Conv, Pow;
    if ts != [] {
      var t := ts[0];
      ConvTermsZero(f, a, ts[1..], k, m);
      ConvPowers(f, a, t.x, k, m);
      MulZero(f, Pow(f, t.x, m));
      MulZero(f, Inv(f, t.x));
      XorZero(0);
      MulZero(f, t.w);
    }
  }

  /** The true locator is a recurrence for the sums, of length the number of series. */
  lemma {:induction false} LocatorGenerates(f: GF, ts: seq<Term>, s: Poly)
    requires Series(f, ts) && Sums(f, ts, s)
    ensures Generates(f, LocatorOf(f, ts), |ts|, s, |s|)
  {
    hide Xor, Mul, Inv, Conv, Pow;
    var a := LocatorOf(f, ts);
    LocatorShape(f, ts);
    forall i | 0 <= i < |ts|
      ensures Eval(f, a, Inv(f, ts[i].x)) == 0
    {
      LocatorRoot(f, ts, i);
    }
    forall m | |ts| <= m < |s|
      ensures Conv(f, a, s, m) == 0
    {
      ConvSums(f, a, ts, s, m);
      ConvTermsZero(f, a, ts, |s|, m);
    }
  }

  // ---------------------------------------------------------------------------------------
  // Shortest recurrences
  // ---------------------------------------------------------------------------------------

  /** Two recurrences that generate the first `n` elements, and are together no longer than
  `n`, predict the same next element. */
  lemma {:induction false} SamePrediction(f: GF, a: Poly, l: nat, b: Poly, v: nat, s: Poly, n: nat)
    requires Generates(f, a, l, s, n) && Generates(f, b, v, s, n + 1) && v + l <= n
    ensures Conv(f, a, s, n) == 0
  {
    hide Xor, Mul;
    var k := n + 1;
    var pa, pb := PrefixProduct(f, a, s, k), PrefixProduct(f, b, s, k);
    ConvExchange(f, a, b, s, k, n);
    // every value of b * s that the convolution with a reaches is zero
    forall j | n - |a| < j <= n
      ensures At(pb, j) == 0
    {
      if j >= 0 { assert At(pb, j) == Conv(f, b, s, j); }
    }
    ConvZero(f, a, pb, n);
    // of the values of a * s that the convolution with b reaches, only the first is left
    forall j | n - 1 - |b[1..]| < j <= n - 1
      ensures At(pa, j) == 0
    {
      if j >= 0 { assert At(pa, j) == Conv(f, a, s, j); }
    }
    ConvZero(f, b[1..], pa, n - 1);
    assert At(pa, n) == Conv(f, a, s, n);
    MulOne(f, At(pa, n));
    XorZero(At(pa, n));
  }

  /** If `a` (length `l`) generates the first `n` elements but not the next, any recurrence that
  does generate the next has length at least `n + 1 - l`. */
  lemma {:induction false} LengthBound(f: GF, a: Poly, l: nat, b: Poly, v: nat, s: Poly, n: nat, k: nat)
    requires Generates(f, a, l, s, n) && Generates(f, b, v, s, k) && n < k
    requires Conv(f, a, s, n) != 0
    ensures n + 1 - l <= v
  {
    if v + l <= n {
      SamePrediction(f, a, l, b, v, s, n);
    }
  }

  /** Each weight multiplied by the value of `a` at the inverse ratio. */
  ghost function Reweigh(f: GF, a: Poly, ts: seq<Term>): (us: seq<Term>)
    requires Series(f, ts)
    ensures |us| == |ts|
    ensures forall i :: 0 <= i < |ts| ==> us[i] == Term(ts[i].x, Mul(f, ts[i].w, Eval(f, a, Inv(f, ts[i].x))))
  {
    if ts == [] then []
    else [Term(ts[0].x, Mul(f, ts[0].w, Eval(f, a, Inv(f, ts[0].x))))] + Reweigh(f, a, ts[1..])
  }

  lemma {:induction false} ConvTermsReweigh(f: GF, a: Poly, ts: seq<Term>, k: nat, m: nat)
    requires Series(f, ts) && Elems(f, a) && |a| <= m + 1 && m < k
    ensures ConvTerms(f, a, ts, k, m) == TermSum(f, Reweigh(f, a, ts), m)
    decreases |ts|
  {
    hide Xor, Mul, Inv, Conv, Pow;
    if ts != [] {
      var t := ts[0];
      ConvTermsReweigh(f, a, ts[1..], k, m);
      assert Reweigh(f, a, ts)[1..] == Reweigh(f, a, ts[1..]);
      ConvPowers(f, a, t.x, k, m);
      var p, e := Pow(f, t.x, m), Eval(f, a, Inv(f, t.x));
      MulZero(f, Inv(f, t.x));
      XorZero(Mul(f, p, e));
      MulComm(f, p, e);
      MulAssoc(f, t.w, e, p);
    }
  }

  /** A short enough recurrence for the sums vanishes at the inverse of every ratio. */
  lemma {:induction false} ShortRecurrenceRoots(f: GF, a: Poly, l: nat, ts: seq<Term>, s: Poly)
    requires Series(f, ts) && (forall i :: 0 <= i < |ts| ==> ts[i].w != 0)
    requires Sums(f, ts, s) && Generates(f, a, l, s, |s|) && l + |ts| <= |s|
    ensures forall i :: 0 <= i < |ts| ==> Eval(f, a, Inv(f, ts[i].x)) == 0
  {
    hide Xor, Mul, Inv, Conv, Pow, Eval;
    var us := Reweigh(f, a, ts);
    forall m | l <= m < l + |us|
      ensures TermSum(f, us, m) == 0
    {
      ConvSums(f, a, ts, s, m);
      ConvTermsReweigh(f, a, ts, |s|, m);
    }
    Independence(f, us, l);
    forall i | 0 <= i < |ts|
      ensures Eval(f, a, Inv(f, ts[i].x)) == 0
    {
      var e := Eval(f, a, Inv(f, ts[i].x));
      EvalElem(f, a, Inv(f, ts[i].x));
      assert us[i].w == 0;
      if e != 0 {
        MulNonzero(f, ts[i].w, e);
      }
    }
  }

  ghost function Inverses(f: GF, ts: seq<Term>): (rs: seq<nat>)
    requires Series(f, ts)
    ensures |rs| == |ts|
    ensures forall i :: 0 <= i < |ts| ==> rs[i] == Inv(f, ts[i].x)
  {
    seq(|ts|, i requires 0 <= i < |ts| => Inv(f, ts[i].x))
  }

  lemma {:induction false} InverseInjective(f: GF, x: nat, y: nat)
    requires Elem(f, x) && Elem(f, y) && x != 0 && y != 0 && Inv(f, x) == Inv(f, y)
    ensures x == y
  {
    hide Mul, Inv;
    var z := Inv(f, x);
    InvMul(f, x);
    InvMul(f, y);
    MulAssoc(f, x, z, y);
    MulOne(f, x);
    MulOne(f, y);
  }

  lemma {:induction false} InversesDistinct(f: GF, ts: seq<Term>)
    requires Series(f, ts)
    ensures Distinct(Inverses(f, ts))
  {
    hide Mul, Inv;
    var rs := Inverses(f, ts);
    forall i, j | 0 <= i < j < |rs|
      ensures rs[i] != rs[j]
    {
      if rs[i] == rs[j] {
        InverseInjective(f, ts[i].x, ts[j].x);
      }
    }
  }

  /** The shortest recurrence for the sums of `v` series has length and degree exactly `v`, and
  its roots are exactly the inverses of the ratios. */
  lemma {:induction false} ShortestRecurrence(f: GF, a: Poly, l: nat, ts: seq<Term>, s: Poly)
    requires Series(f, ts) && (forall i :: 0 <= i < |ts| ==> ts[i].w != 0)
    requires Sums(f, ts, s) && 2 * |ts| <= |s|
    requires Generates(f, a, l, s, |s|) && l <= |ts|
    ensures l == |ts| && |a| == |ts| + 1
    ensures AllRoots(f, a, Inverses(f, ts))
    ensures forall r :: Elem(f, r) && Eval(f, a, r) == 0 ==> r in Inverses(f, ts)
  {
    hide Xor, Mul, Inv, Conv, Pow, Eval;
    var rs := Inverses(f, ts);
    ShortRecurrenceRoots(f, a, l, ts, s);
    InversesDistinct(f, ts);
    assert Nonzero(a) by { assert a[0] != 0; }
    RootBound(f, a, rs);
    forall r | Elem(f, r) && Eval(f, a, r) == 0
      ensures r in rs
    {
      if r !in rs {
        RootBound(f, a, [r] + rs);
      }
    }
  }

  // ---------------------------------------------------------------------------------------
  // Error values
  // ---------------------------------------------------------------------------------------

  /** The evaluator polynomial at `z`, series by series. */
  ghost function EvaluatorAt(f: GF, a: Poly, ts: seq<Term>, z: nat): nat
    requires Series(f, ts)
  {
    if ts == [] then 0
    else
      var y := Inv(f, ts[0].x);
      Xor(Mul(f, ts[0].w, Mul(f, y, Eval(f, Quotient(f, a, y), z))), EvaluatorAt(f, a, ts[1..], z))
  }

  /** Convolving a polynomial with the powers of `x` divides it by its root `1 / x`. */
  lemma {:induction false} ConvPowersQuotient(f: GF, a: Poly, x: nat, k: nat)
    requires Elems(f, a) && Elem(f, x) && x != 0 && |a| <= k + 1
    requires Eval(f, a, Inv(f, x)) == 0
    ensures Same(PrefixProduct(f, a, Powers(f, x, k), k), Scale(f, Inv(f, x), Quotient(f, a, Inv(f, x))))
  {
    hide Xor, Mul, Inv, Conv, Pow, Eval;
    var y := Inv(f, x);
    var q := Quotient(f, a, y);
    var p, r := PrefixProduct(f, a, Powers(f, x, k), k), Scale(f, y, q);
    forall m: nat
      ensures At(p, m) == At(r, m)
    {
      assert At(r, m) == Mul(f, y, At(q, m));
      MulZero(f, y);
      if m < k {
        assert At(p, m) == Conv(f, a, Powers(f, x, k), m);
        ConvPowers(f, a, x, k, m);
        MulZero(f, Pow(f, x, m));
        XorZero(Mul(f, y, Eval(f, Drop(a, m + 1), y)));
        if m + 1 < |a| {
          QuotientAt(f, a, y, m);
        } else {
          assert Drop(a, m + 1) == [];
          EvalEmpty(f, y);
        }
      }
    }
  }

  lemma EvalEmpty(f: GF, x: nat)
    ensures Eval(f, [], x) == 0
  {
  }

  /** The product of a recurrence with the sums evaluates to the sum of its quotients. */
  lemma {:induction false} EvaluatorValue(f: GF, a: Poly, ts: seq<Term>, s: Poly, z: nat)
    requires Series(f, ts) && Sums(f, ts, s) && Elems(f, a) && |a| <= |s| + 1
    requires forall i :: 0 <= i < |ts| ==> Eval(f, a, Inv(f, ts[i].x)) == 0
    ensures Eval(f, PrefixProduct(f, a, s, |s|), z) == EvaluatorAt(f, a, ts, z)
    decreases |ts|
  {
    hide Xor, Mul, Inv, Conv, Pow, Eval;
    var k := |s|;
    var p := PrefixProduct(f, a, s, k);
    if ts == [] {
      forall m: nat
        ensures At(p, m) == At([], m)
      {
        if m < k {
          assert At(p, m) == Conv(f, a, s, m);
          ConvZero(f, a, s, m);
        }
      }
      EvalSame(f, p, [], z);
      EvalEmpty(f, z);
    } else {
      var t, us := ts[0], ts[1..];
      var y := Inv(f, t.x);
      var g, rest := Powers(f, t.x, k), SumSeq(f, us, k);
      EvaluatorValue(f, a, us, rest, z);
      var pg, pr := PrefixProduct(f, a, g, k), PrefixProduct(f, a, rest, k);
      forall m: nat
        ensures At(p, m) == At(Sum(Scale(f, t.w, pg), pr), m)
      {
        assert At(Scale(f, t.w, pg), m) == Mul(f, t.w, At(pg, m));
        if m < k {
          SplitFirst(f, a, ts, s, m);
        } else {
          MulZero(f, t.w);
          XorZero(0);
        }
      }
      EvalSame(f, p, Sum(Scale(f, t.w, pg), pr), z);
      EvalSum(f, Scale(f, t.w, pg), pr, z);
      EvalScale(f, t.w, pg, z);
      ConvPowersQuotient(f, a, t.x, k);
      EvalSame(f, pg, Scale(f, y, Quotient(f, a, y)), z);
      EvalScale(f, y, Quotient(f, a, y), z);
    }
  }

  /** A convolution with the sums, with the first series taken apart. */
  lemma {:induction false} SplitFirst(f: GF, a: Poly, ts: seq<Term>, s: Poly, m: nat)
    requires ts != [] && Sums(f, ts, s) && m < |s|
    ensures Conv(f, a, s, m)
         == Xor(Mul(f, ts[0].w, Conv(f, a, Powers(f, ts[0].x, |s|), m)), Conv(f, a, SumSeq(f, ts[1..], |s|), m))
  {
    hide Xor, Mul, Conv, Pow;
    ConvSums(f, a, ts, s, m);
    ConvSums(f, a, ts[1..], SumSeq(f, ts[1..], |s|), m);
  }

  /** At the inverse ratio of one series, only that series contributes. */
  lemma {:induction false} EvaluatorAtRoot(f: GF, a: Poly, ts: seq<Term>, i: nat)
    requires Series(f, ts) && Elems(f, a) && i < |ts|
    requires forall j :: 0 <= j < |ts| ==> Eval(f, a, Inv(f, ts[j].x)) == 0
    ensures var y := Inv(f, ts[i].x);
            EvaluatorAt(f, a, ts, y) == Mul(f, ts[i].w, Mul(f, y, Eval(f, Quotient(f, a, y), y)))
    decreases |ts|
  {
    hide Xor, Mul, Inv, Eval;
    var y, y0 := Inv(f, ts[i].x), Inv(f, ts[0].x);
    if i == 0 {
      OthersVanish(f, a, ts[1..], y, ts[0].x);
      XorZero(Mul(f, ts[0].w, Mul(f, y, Eval(f, Quotient(f, a, y), y))));
    } else {
      EvaluatorAtRoot(f, a, ts[1..], i - 1);
      if y0 == y {
        InverseInjective(f, ts[0].x, ts[i].x);
      }
      OtherRoot(f, a, y0, y);
      MulZero(f, y0);
      MulZero(f, ts[0].w);
      XorZero(Mul(f, ts[i].w, Mul(f, y, Eval(f, Quotient(f, a, y), y))));
    }
  }

  lemma {:induction false} OthersVanish(f: GF, a: Poly, ts: seq<Term>, y: nat, x: nat)
    requires Series(f, ts) && Elems(f, a) && Elem(f, x) && x != 0 && y == Inv(f, x)
    requires Eval(f, a, y) == 0
    requires forall j :: 0 <= j < |ts| ==> ts[j].x != x && Eval(f, a, Inv(f, ts[j].x)) == 0
    ensures EvaluatorAt(f, a, ts, y) == 0
    decreases |ts|
  {
    hide Xor, Mul, Inv, Eval;
    if ts != [] {
      OthersVanish(f, a, ts[1..], y, x);
      var y0 := Inv(f, ts[0].x);
      if y0 == y {
        InverseInjective(f, ts[0].x, x);
      }
      OtherRoot(f, a, y0, y);
      MulZero(f, y0);
      MulZero(f, ts[0].w);
      XorZero(0);
    }
  }

  /** Every root of the shortest recurrence is simple. */
  lemma {:induction false} SimpleRoot(f: GF, a: Poly, ts: seq<Term>, i: nat)
    requires Series(f, ts) && Elems(f, a) && Nonzero(a) && |a| == |ts| + 1 && i < |ts|
    requires AllRoots(f, a, Inverses(f, ts))
    ensures var y := Inv(f, ts[i].x); Eval(f, Quotient(f, a, y), y) != 0
  {
    hide Xor, Mul, Inv, Eval;
    var rs := Inverses(f, ts);
    var y := rs[i];
    var q := Quotient(f, a, y);
    InversesDistinct(f, ts);
    QuotientElems(f, a, y);
    QuotientNonzero(f, a, y);
    if Eval(f, q, y) == 0 {
      forall j | 0 <= j < |rs|
        ensures Eval(f, q, rs[j]) == 0
      {
        if j != i {
          OtherRoot(f, a, y, rs[j]);
        }
      }
      RootBound(f, q, rs);
    }
  }
}
