/** The invariant of the Berlekamp-Massey loop, and why each of its steps keeps it. */
module BerlekampMassey {
  import opened Bits
  import opened GaloisField
  import opened Polynomial
  import opened FieldPolynomial
  import opened Locator

  /** The correction polynomial at the start of round `n`: multiplied with the syndromes it yields
  one at degree `n` and zero at the degrees below that the current recurrence must keep. */
  ghost predicate Corrects(f: GF, prev: Poly, l: nat, s: Poly, n: nat) {
    && Elems(f, prev) && 0 < |prev| <= n + 2 - l && prev[0] == 0
    && (l > 0 ==> Conv(f, prev, s, n) == 1)
    && (l > 0 ==> forall m :: n + 1 - l <= m < n ==> Conv(f, prev, s, m) == 0)
  }

  /** What holds at the start of round `n`. */
  ghost predicate Invariant(f: GF, lambda: Poly, prev: Poly, l: nat, s: Poly, n: nat) {
    && l <= n
    && Generates(f, lambda, l, s, n) && lambda[|lambda| - 1] != 0
    && Corrects(f, prev, l, s, n)
  }

  /** No recurrence that generates the first `k` syndromes is shorter than `l`. */
  ghost predicate Shortest(f: GF, l: nat, s: Poly, k: nat) {
    forall a: Poly, v: nat :: Generates(f, a, v, s, k) ==> l <= v
  }

  lemma {:induction false} Start(f: GF, s: Poly)
    ensures Invariant(f, [1], [0, 1], 0, s, 0)
  {
  }

  /** The updated recurrence generates one more syndrome. */
  lemma {:induction false} Update(f: GF, lambda: Poly, prev: Poly, l: nat, s: Poly, n: nat)
    requires Invariant(f, lambda, prev, l, s, n) && Conv(f, lambda, s, n) != 0
    ensures var tau := Strip(Sum(lambda, Scale(f, Conv(f, lambda, s, n), prev)));
            var l' := if 2 * l <= n then n + 1 - l else l;
            Generates(f, tau, l', s, n + 1) && tau[|tau| - 1] != 0
  {
    hide Xor, Mul, Conv, Strip;
    var d := Conv(f, lambda, s, n);
    var b := Scale(f, d, prev);
    var t := Sum(lambda, b);
    var tau := Strip(t);
    var l' := if 2 * l <= n then n + 1 - l else l;
    assert At(tau, 0) == At(t, 0) == Xor(At(lambda, 0), At(b, 0));
    assert At(b, 0) == Mul(f, d, At(prev, 0));
    MulZero(f, d);
    XorZero(1);
    assert Elems(f, tau) by {
      forall i | 0 <= i < |tau|
        ensures Elem(f, tau[i])
      {
        assert tau[i] == At(tau, i) == At(t, i) == Xor(At(lambda, i), At(b, i));
        XorBound(At(lambda, i), At(b, i), f.power);
      }
    }
    forall m | l' <= m < n + 1
      ensures Conv(f, tau, s, m) == 0
    {
      ConvSame(f, tau, t, s, m);
      ConvSum(f, lambda, b, s, m);
      ConvScale(f, d, prev, s, m);
      MulZero(f, d);
      MulOne(f, d);
      XorZero(0);
      XorSelf(d);
    }
  }

  /** The recurrence that has just failed, divided by its discrepancy, is the next correction. */
  lemma {:induction false} ReplacePrevious(f: GF, lambda: Poly, prev: Poly, l: nat, s: Poly, n: nat)
    requires Invariant(f, lambda, prev, l, s, n) && Conv(f, lambda, s, n) != 0
    ensures Corrects(f, [0] + DivideAll(f, lambda, Conv(f, lambda, s, n)), n + 1 - l, s, n + 1)
  {
    hide Xor, Mul, Conv, Div;
    var d := Conv(f, lambda, s, n);
    var q := DivideAll(f, lambda, d);
    forall m: int
      ensures Conv(f, [0] + q, s, m) == Mul(f, Div(f, 1, d), Conv(f, lambda, s, m - 1))
    {
      ConvShift(f, q, s, m);
      DivideAllScale(f, lambda, d);
      ConvScale(f, Div(f, 1, d), lambda, s, m - 1);
    }
    DivMul(f, 1, d);
    forall m | l + 1 <= m < n + 1
      ensures Conv(f, [0] + q, s, m) == 0
    {
      assert Conv(f, lambda, s, m - 1) == 0;
      MulZero(f, Div(f, 1, d));
    }
  }

  lemma {:induction false} DivideAllScale(f: GF, s: Poly, e: nat)
    requires Elems(f, s) && Elem(f, e) && e != 0
    ensures DivideAll(f, s, e) == Scale(f, Div(f, 1, e), s)
  {
    hide Mul, Div;
    var u, v := DivideAll(f, s, e), Scale(f, Div(f, 1, e), s);
    forall i | 0 <= i < |s|
      ensures u[i] == v[i]
    {
      assert v[i] == At(v, i) == Mul(f, Div(f, 1, e), At(s, i));
      DivideIsMultiply(f, s[i], e);
    }
  }

  lemma {:induction false} DivideIsMultiply(f: GF, a: nat, e: nat)
    requires Elem(f, a) && Elem(f, e) && e != 0
    ensures Div(f, a, e) == Mul(f, Div(f, 1, e), a)
  {
    hide Mul, Div;
    var r := Div(f, 1, e);
    DivMul(f, 1, e);
    MulComm(f, r, a);
    MulAssoc(f, a, r, e);
    MulOne(f, a);
    DivMul(f, Mul(f, a, r), e);
  }

  /** Shifting keeps the correction for the next round. */
  lemma {:induction false} ShiftPrevious(f: GF, prev: Poly, l: nat, s: Poly, n: nat)
    requires Corrects(f, prev, l, s, n) && l <= n
    ensures Corrects(f, [0] + prev, l, s, n + 1)
  {
    hide Xor, Mul, Conv;
    ConvShift(f, prev, s, n + 1);
    forall m | n + 2 - l <= m < n + 1
      ensures l > 0 ==> Conv(f, [0] + prev, s, m) == 0
    {
      ConvShift(f, prev, s, m);
    }
  }

  /** A change of length never overshoots the shortest recurrence. */
  lemma {:induction false} StaysShortest(f: GF, lambda: Poly, l: nat, s: Poly, n: nat, k: nat)
    requires Generates(f, lambda, l, s, n) && Conv(f, lambda, s, n) != 0 && n < k && l <= n
    requires Shortest(f, l, s, k)
    ensures Shortest(f, n + 1 - l, s, k)
  {
    hide Generates, Conv;
    forall a: Poly, v: nat | Generates(f, a, v, s, k)
      ensures n + 1 - l <= v
    {
      LengthBound(f, lambda, l, a, v, s, n, k);
    }
  }

  // ---------------------------------------------------------------------------------------
  // The rounds
  // ---------------------------------------------------------------------------------------

  lemma {:induction false} AnyLength(f: GF, s: Poly, k: nat)
    ensures Shortest(f, 0, s, k)
  {
  }

  lemma {:induction false} InvariantShape(f: GF, lambda: Poly, prev: Poly, l: nat, s: Poly, n: nat)
    requires Invariant(f, lambda, prev, l, s, n)
    ensures lambda != [] && prev != [] && Elems(f, lambda) && Elems(f, prev) && |lambda| <= l + 1 && l <= n
  {
  }

  lemma {:induction false} InvariantEnd(f: GF, lambda: Poly, prev: Poly, l: nat, s: Poly, n: nat)
    requires Invariant(f, lambda, prev, l, s, n)
    ensures Generates(f, lambda, l, s, n) && l <= n && lambda != [] && lambda[|lambda| - 1] != 0
  {
  }

  /** A round without discrepancy. */
  lemma {:induction false} NoDiscrepancy(f: GF, lambda: Poly, prev: Poly, l: nat, s: Poly, n: nat)
    requires Invariant(f, lambda, prev, l, s, n) && Conv(f, lambda, s, n) == 0
    ensures Invariant(f, lambda, [0] + prev, l, s, n + 1)
  {
    ShiftPrevious(f, prev, l, s, n);
  }

  /** A round that corrects the recurrence within its length. */
  lemma {:induction false} KeepLength(f: GF, lambda: Poly, prev: Poly, l: nat, s: Poly, n: nat)
    requires Invariant(f, lambda, prev, l, s, n) && Conv(f, lambda, s, n) != 0 && 2 * l > n
    ensures Invariant(f, Strip(Sum(lambda, Scale(f, Conv(f, lambda, s, n), prev))), [0] + prev, l, s, n + 1)
  {
    hide Conv, Strip;
    Update(f, lambda, prev, l, s, n);
    ShiftPrevious(f, prev, l, s, n);
  }

  /** A round that makes the recurrence longer, by no more than it must be. */
  lemma {:induction false} ChangeLength(f: GF, lambda: Poly, prev: Poly, l: nat, s: Poly, n: nat, k: nat)
    requires Invariant(f, lambda, prev, l, s, n) && Conv(f, lambda, s, n) != 0 && 2 * l <= n < k
    requires Shortest(f, l, s, k)
    ensures var d := Conv(f, lambda, s, n);
            Invariant(f, Strip(Sum(lambda, Scale(f, d, prev))), [0] + DivideAll(f, lambda, d), n + 1 - l, s, n + 1)
    ensures Shortest(f, n + 1 - l, s, k)
  {
    hide Conv, Strip, Shortest;
    Update(f, lambda, prev, l, s, n);
    ReplacePrevious(f, lambda, prev, l, s, n);
    StaysShortest(f, lambda, l, s, n, k);
  }

  // ---------------------------------------------------------------------------------------
  // The rounds as a function of the syndromes
  // ---------------------------------------------------------------------------------------

  /** The state of the loop: the recurrence, the correction polynomial and the length. */
  datatype Round = Round(lambda: Poly, prev: Poly, length: nat)

  ghost function NextRound(f: GF, r: Round, s: Poly, n: nat): Round
  {
    var d := Conv(f, r.lambda, s, n);
    var tau := Strip(Sum(r.lambda, Scale(f, d, r.prev)));
    if d == 0 then Round(r.lambda, [0] + r.prev, r.length)
    else if 2 * r.length <= n then Round(tau, [0] + Scale(f, Div(f, 1, d), r.lambda), n + 1 - r.length)
    else Round(tau, [0] + r.prev, r.length)
  }

  /** The state after `n` rounds. */
  ghost function Massey(f: GF, s: Poly, n: nat): Round
  {
    if n == 0 then Round([1], [0, 1], 0) else NextRound(f, Massey(f, s, n - 1), s, n - 1)
  }

  lemma {:induction false} MasseyStart(f: GF, s: Poly)
    ensures Massey(f, s, 0) == Round([1], [0, 1], 0)
  {
  }

  lemma {:induction false} MasseyStep(f: GF, s: Poly, n: nat)
    ensures Massey(f, s, n + 1) == NextRound(f, Massey(f, s, n), s, n)
  {
    hide NextRound;
  }

  /** A round with a discrepancy, as the loop computes it. */
  lemma {:induction false} RoundWithDiscrepancy(f: GF, r: Round, s: Poly, n: nat)
    requires Conv(f, r.lambda, s, n) != 0 && Elems(f, r.lambda)
    ensures var d := Conv(f, r.lambda, s, n);
            NextRound(f, r, s, n) == Round(Strip(Sum(r.lambda, Scale(f, d, r.prev))),
                                           [0] + (if 2 * r.length <= n then DivideAll(f, r.lambda, d) else r.prev),
                                           if 2 * r.length <= n then n + 1 - r.length else r.length)
  {
    hide Conv, Strip, Sum, Scale, DivideAll, Div;
    DivideAllScale(f, r.lambda, Conv(f, r.lambda, s, n));
  }

  lemma {:induction false} RoundWithout(f: GF, r: Round, s: Poly, n: nat)
    requires Conv(f, r.lambda, s, n) == 0
    ensures NextRound(f, r, s, n) == Round(r.lambda, [0] + r.prev, r.length)
  {
    hide Conv, Strip, Sum, Scale, Div;
  }

  /** While the syndromes vanish, the recurrence stays trivial and the correction is a power of x. */
  lemma {:induction false} SilentRounds(f: GF, s: Poly, n: nat)
    requires forall j :: 0 <= j < n ==> At(s, j) == 0
    ensures Massey(f, s, n) == Round([1], Zeros(n + 1) + [1], 0)
    decreases n
  {
    hide NextRound;
    if n == 0 {
      assert Zeros(1) + [1] == [0, 1];
    } else {
      SilentRounds(f, s, n - 1);
      ConvZero(f, [1], s, n - 1);
      RoundWithout(f, Massey(f, s, n - 1), s, n - 1);
      assert [0] + (Zeros(n) + [1]) == Zeros(n + 1) + [1];
    }
  }

  /** Every state of the loop satisfies the invariant, and its recurrence is no longer than any for all
  the syndromes. */
  lemma {:induction false} MasseyInvariant(f: GF, s: Poly, n: nat, k: nat)
    requires n <= k
    ensures var r := Massey(f, s, n); Invariant(f, r.lambda, r.prev, r.length, s, n) && Shortest(f, r.length, s, k)
    decreases n
  {
    hide Invariant, Shortest, NextRound, Conv, Strip, DivideAll;
    if n == 0 {
      Start(f, s);
      AnyLength(f, s, k);
    } else {
      MasseyInvariant(f, s, n - 1, k);
      NextInvariant(f, Massey(f, s, n - 1), s, n - 1, k);
    }
  }

  lemma {:induction false} NextInvariant(f: GF, r: Round, s: Poly, n: nat, k: nat)
    requires n < k && Invariant(f, r.lambda, r.prev, r.length, s, n) && Shortest(f, r.length, s, k)
    ensures var q := NextRound(f, r, s, n); Invariant(f, q.lambda, q.prev, q.length, s, n + 1) && Shortest(f, q.length, s, k)
  {
    hide Invariant, Shortest, NextRound, Conv, Elems;
    if Conv(f, r.lambda, s, n) == 0 {
      NoDiscrepancy(f, r.lambda, r.prev, r.length, s, n);
      RoundWithout(f, r, s, n);
    } else if 2 * r.length <= n {
      LongerRound(f, r, s, n, k);
    } else {
      EqualRound(f, r, s, n);
    }
  }

  lemma {:induction false} LongerRound(f: GF, r: Round, s: Poly, n: nat, k: nat)
    requires n < k && Invariant(f, r.lambda, r.prev, r.length, s, n) && Shortest(f, r.length, s, k)
    requires Conv(f, r.lambda, s, n) != 0 && 2 * r.length <= n
    ensures var q := NextRound(f, r, s, n); Invariant(f, q.lambda, q.prev, q.length, s, n + 1) && Shortest(f, q.length, s, k)
  {
    hide Invariant, Shortest, NextRound, Conv, Strip, DivideAll, Sum, Scale;
    InvariantShape(f, r.lambda, r.prev, r.length, s, n);
    RoundWithDiscrepancy(f, r, s, n);
    ChangeLength(f, r.lambda, r.prev, r.length, s, n, k);
  }

  lemma {:induction false} EqualRound(f: GF, r: Round, s: Poly, n: nat)
    requires Invariant(f, r.lambda, r.prev, r.length, s, n) && Conv(f, r.lambda, s, n) != 0 && 2 * r.length > n
    ensures var q := NextRound(f, r, s, n); Invariant(f, q.lambda, q.prev, q.length, s, n + 1) && q.length == r.length
  {
    hide Invariant, NextRound, Conv, Strip, DivideAll, Sum, Scale;
    InvariantShape(f, r.lambda, r.prev, r.length, s, n);
    RoundWithDiscrepancy(f, r, s, n);
    KeepLength(f, r.lambda, r.prev, r.length, s, n);
  }

  lemma {:induction false} MasseyShape(f: GF, s: Poly, n: nat)
    ensures var r := Massey(f, s, n);
            && r.lambda != [] && r.prev != [] && Elems(f, r.lambda) && Elems(f, r.prev)
            && |r.lambda| <= r.length + 1 && r.length <= n
  {
    hide Invariant, Massey;
    MasseyInvariant(f, s, n, n);
    var r := Massey(f, s, n);
    InvariantShape(f, r.lambda, r.prev, r.length, s, n);
  }

  /** The recurrence after all rounds. */
  lemma {:induction false} MasseyEnd(f: GF, s: Poly, n: nat)
    ensures var r := Massey(f, s, n);
            && Generates(f, r.lambda, r.length, s, n) && Shortest(f, r.length, s, n)
            && r.length <= n && r.lambda != [] && r.lambda[|r.lambda| - 1] != 0
  {
    hide Invariant, Massey, Shortest;
    MasseyInvariant(f, s, n, n);
    var r := Massey(f, s, n);
    InvariantEnd(f, r.lambda, r.prev, r.length, s, n);
  }
}
