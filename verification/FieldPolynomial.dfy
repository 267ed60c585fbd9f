/** The polynomial class: a coefficient vector that its compound operators change in place.
A polynomial passed by constant reference is passed here as its coefficient sequence. */
module FieldPolynomial {
  import opened Bits
  import opened GaloisField
  import opened FieldTables
  import opened Polynomial
  import opened Roots

  // ---------------------------------------------------------------------------------------
  // Specification functions
  // ---------------------------------------------------------------------------------------

  /** Without its trailing zero coefficients. */
  function Strip(s: Poly): (r: Poly)
    ensures r <= s
    ensures r == [] || r[|r| - 1] != 0
    ensures forall i: nat :: At(r, i) == At(s, i)
  {
    if s != [] && s[|s| - 1] == 0 then Strip(s[..|s| - 1]) else s
  }

  function DivideAll(f: GF, s: Poly, e: nat): (r: Poly)
    requires Elems(f, s) && Elem(f, e)
    ensures |r| == |s| && Elems(f, r)
    ensures forall i :: 0 <= i < |s| ==> r[i] == Div(f, s[i], e)
  {
    seq(|s|, i requires 0 <= i < |s| => Div(f, s[i], e))
  }

  /** The value as the exponent table gives it. */
  function TableEval(f: GF, s: Poly, x: nat): (r: nat)
    requires Elem(f, x)
    ensures Elem(f, r)
  {
    if s == [] then 0
    else
      var k := |s| - 1;
      var a, b := TableEval(f, s[..k], x), Mul(f, TablePow(f, x, k % Pow2(f.power)), s[k]);
      XorBound(a, b, f.power);
      Xor(a, b)
  }

  function Zeros(n: nat): (r: Poly)
    ensures |r| == n && forall i :: 0 <= i < n ==> r[i] == 0
  {
    seq(n, i => 0)
  }

  /** At a non-zero point, and for no more coefficients than the table has exponents, the table
  gives the true value. */
  lemma {:induction false} TableEvalIsEval(f: GF, s: Poly, x: nat)
    requires Elems(f, s) && Elem(f, x) && x != 0 && |s| <= Pow2(f.power)
    ensures TableEval(f, s, x) == Eval(f, s, x)
    decreases |s|
  {
    hide Xor, Mul, Pow;
    if s != [] {
      var k := |s| - 1;
      TableEvalIsEval(f, s[..k], x);
      assert s == s[..k] + [s[k]];
      EvalSnoc(f, s[..k], s[k], x);
      ModSmall(k, Pow2(f.power));
    }
  }

  /** At zero the table loses the constant term: the value is right exactly when there is none. */
  lemma {:induction false} TableEvalAtZero(f: GF, s: Poly)
    requires Elems(f, s)
    ensures TableEval(f, s, 0) == 0
    ensures TableEval(f, s, 0) == Eval(f, s, 0) <==> At(s, 0) == 0
  {
    TableEvalZero(f, s);
    if s != [] {
      MulZero(f, Eval(f, s[1..], 0));
      XorZero(s[0]);
    }
  }

  /** The constant polynomial one has the table value zero at zero. */
  lemma {:induction false} TableEvalWrong(f: GF)
    ensures TableEval(f, [1], 0) == 0 && Eval(f, [1], 0) == 1
  {
    hide Mul;
    TableEvalAtZero(f, [1]);
    assert [1][1..] == [] && Eval(f, [], 0) == 0;
    MulZero(f, 0);
    XorZero(1);
  }

  lemma {:induction false} TableEvalZero(f: GF, s: Poly)
    ensures TableEval(f, s, 0) == 0
    decreases |s|
  {
    hide Xor, Mul;
    if s != [] {
      TableEvalZero(f, s[..|s| - 1]);
      MulZero(f, s[|s| - 1]);
      XorZero(0);
    }
  }

  // ---------------------------------------------------------------------------------------
  // The class
  // ---------------------------------------------------------------------------------------

  class FieldPolynomial {
    const f: GF
    var poly: Poly

    ghost predicate Ok()
      reads this
    {
      Elems(f, poly)
    }

    constructor (f: GF, s: Poly)
      requires Elems(f, s)
      ensures this.f == f && poly == s && Ok()
    {
      this.f := f;
      poly := s;
    }

    /** The zero-filled polynomial with room for `degree`. */
    constructor OfDegree(f: GF, degree: nat)
      ensures this.f == f && Ok() && |poly| == degree + 1
      ensures forall i :: 0 <= i <= degree ==> poly[i] == 0
    {
      this.f := f;
      poly := Zeros(degree + 1);
    }

    function Degree(): int
      reads this
    {
      |poly| - 1
    }

    method Simplify()
      requires Ok()
      modifies this
      ensures Ok() && poly == Strip(old(poly))
    {
      var size := |poly|;
      if size > 0 && poly[size - 1] == 0 {
        var it := size;
        var count := 0;
        assert poly[..it] == poly;
        while it > 0 && poly[it - 1] == 0
          invariant it == size - count && 0 <= count <= size
          invariant poly == old(poly) && Strip(poly[..it]) == Strip(poly)
          decreases it
        {
          assert poly[..it][..it - 1] == poly[..it - 1];
          it := it - 1;
          count := count + 1;
        }
        assert it > 0 ==> poly[..it][it - 1] == poly[it - 1];
        if count != 0 {
          poly := poly[..size - count];
        }
      }
    }

    /** Assigning an element resizes to one coefficient and keeps a coefficient already there. */
    method AssignElement(e: nat)
      requires Ok() && Elem(f, e)
      modifies this
      ensures Ok()
      ensures poly == if old(poly) == [] then [e] else [old(poly)[0]]
    {
      if |poly| < 1 {
        poly := poly + [e];
      } else {
        poly := poly[..1];
      }
    }

    method AddAssign(q: Poly)
      requires Ok() && Elems(f, q)
      modifies this
      ensures Ok() && poly == Strip(Sum(old(poly), q))
    {
      hide Strip, Xor;
      ghost var p := poly;
      var i := 0;
      if |poly| < |q| {
        while i < |poly|
          invariant 0 <= i <= |p| == |poly|
          invariant forall j :: 0 <= j < i ==> poly[j] == Xor(p[j], q[j])
          invariant forall j :: i <= j < |p| ==> poly[j] == p[j]
        {
          poly := poly[i := Xor(poly[i], q[i])];
          i := i + 1;
        }
        while i < |q|
          invariant |p| <= i <= |q| && |poly| == i
          invariant forall j :: 0 <= j < |p| ==> poly[j] == Xor(p[j], q[j])
          invariant forall j :: |p| <= j < i ==> poly[j] == q[j]
        {
          poly := poly + [q[i]];
          i := i + 1;
        }
      } else {
        while i < |q|
          invariant 0 <= i <= |q| <= |p| == |poly|
          invariant forall j :: 0 <= j < i ==> poly[j] == Xor(p[j], q[j])
          invariant forall j :: i <= j < |p| ==> poly[j] == p[j]
        {
          poly := poly[i := Xor(poly[i], q[i])];
          i := i + 1;
        }
      }
      SumIs(f, p, q, poly);
      Simplify();
    }

    /** Adding a single element reaches only the constant coefficient. */
    method AddElement(e: nat)
      requires Ok() && Elem(f, e) && |poly| > 0
      modifies this
      ensures Ok() && poly == old(poly)[0 := Xor(old(poly)[0], e)]
    {
      XorBound(poly[0], e, f.power);
      poly := poly[0 := Xor(poly[0], e)];
    }

    method MulAssign(q: Poly)
      requires Ok() && Elems(f, q)
      modifies this
      ensures Ok() && poly == Strip(PrefixProduct(f, old(poly), q, |old(poly)| + |q|))
    {
      hide Strip, Xor, Mul, Conv;
      var p := poly;
      var product := Zeros(|p| + |q|);
      var i := 0;
      NoProduct(f, q, product);
      while i < |p|
        invariant 0 <= i <= |p| && p == old(poly)
        invariant |product| == |p| + |q| && product == PrefixProduct(f, p[..i], q, |p| + |q|)
      {
        ghost var row := product;
        var j := 0;
        while j < |q|
          invariant 0 <= j <= |q| && |product| == |p| + |q|
          invariant forall m :: i <= m < i + j ==> product[m] == Xor(row[m], Mul(f, p[i], q[m - i]))
          invariant forall m :: 0 <= m < |product| && !(i <= m < i + j) ==> product[m] == row[m]
        {
          var t := GenMul(f, p[i], q[j]);
          product := product[i + j := Xor(product[i + j], t)];
          j := j + 1;
        }
        RowAdded(f, p, i, q, row, product);
        i := i + 1;
      }
      assert p[..i] == p;
      poly := product;
      Simplify();
    }

    method ScaleAssign(e: nat)
      requires Ok() && Elem(f, e)
      modifies this
      ensures Ok() && poly == Scale(f, e, old(poly))
    {
      hide Mul;
      ghost var p := poly;
      var i := 0;
      while i < |poly|
        invariant 0 <= i <= |poly| == |p|
        invariant forall j :: 0 <= j < i ==> poly[j] == Mul(f, e, p[j])
        invariant forall j :: i <= j < |p| ==> poly[j] == p[j]
      {
        var t := GenMul(f, poly[i], e);
        MulComm(f, poly[i], e);
        poly := poly[i := t];
        i := i + 1;
      }
      forall j | 0 <= j < |p|
        ensures poly[j] == Scale(f, e, p)[j]
      {
        assert Scale(f, e, p)[j] == At(Scale(f, e, p), j) == Mul(f, e, At(p, j));
      }
    }

    method DivElement(e: nat)
      requires Ok() && Elem(f, e)
      modifies this
      ensures Ok() && poly == DivideAll(f, old(poly), e)
    {
      hide Div;
      ghost var p := poly;
      var i := 0;
      while i < |poly|
        invariant 0 <= i <= |poly| == |p|
        invariant forall j :: 0 <= j < i ==> poly[j] == Div(f, p[j], e)
        invariant forall j :: i <= j < |p| ==> poly[j] == p[j]
      {
        var t := GenDiv(f, poly[i], e);
        poly := poly[i := t];
        i := i + 1;
      }
    }

    /** Remainder modulo a polynomial, by the shift register: the coefficients are fed in from
    the highest down, and the digit shifted out at the top is cancelled by the divisor. The
    remainder keeps all of the register, zeros included. */
    method ModAssign(divisor: Poly) returns (ghost q: Poly)
      requires Ok() && Elems(f, divisor) && |divisor| != 1
      modifies this
      ensures Ok()
      ensures |old(poly)| < |divisor| || divisor == [] ==> poly == old(poly)
      ensures |old(poly)| >= |divisor| > 1 ==> |poly| == |divisor| - 1
      ensures |old(poly)| >= |divisor| > 1 && divisor[|divisor| - 1] != 0 ==>
                Elems(f, q) && DividedBy(f, old(poly), divisor, q, poly)
    {
      hide Xor, Mul, Div, Conv, DividedBy;
      q := [];
      if |poly| >= |divisor| && |divisor| >= 1 {
        var p, d := poly, divisor;
        var quotient := Zeros(|p| - |d| + 2);
        var remainder := Zeros(|d| - 1);
        var top := |d| - 2;
        var i := |p| - 1;
        NotDivided(f, d, remainder);
        assert p[i + 1..] == [];
        while i >= 0
          invariant -1 <= i < |p| && poly == p && |q| == |p| - 1 - i
          invariant forall k :: 0 <= k < |q| ==> q[k] == At(quotient, i + 1 + k)
          invariant |quotient| == |p| - |d| + 2 && |remainder| == |d| - 1
          invariant Elems(f, quotient) && Elems(f, remainder)
          invariant d[|d| - 1] != 0 ==> DividedBy(f, p[i + 1..], d, q, remainder)
          invariant forall j :: 0 <= j < |remainder| && |p| - 1 - i <= j ==>
                      i >= |p| - |d| ==> remainder[j] == 0
        {
          ghost var before := remainder;
          ghost var digit := 0;
          if i <= |quotient| - 1 {
            var t := GenDiv(f, remainder[top], d[top + 1]);
            quotient := quotient[i := t];
            digit := t;
            var j := top;
            while j > 0
              invariant 0 <= j <= top && |remainder| == |d| - 1 && Elems(f, remainder) && poly == p
              invariant forall k :: j < k <= top ==> remainder[k] == Xor(before[k - 1], Mul(f, digit, d[k]))
              invariant forall k :: 0 <= k <= j ==> remainder[k] == before[k]
            {
              var u := GenMul(f, quotient[i], d[j]);
              XorBound(remainder[j - 1], u, f.power);
              remainder := remainder[j := Xor(remainder[j - 1], u)];
              j := j - 1;
            }
            var u := GenMul(f, quotient[i], d[0]);
            XorBound(p[i], u, f.power);
            remainder := remainder[0 := Xor(p[i], u)];
            if d[top + 1] != 0 {
              DigitCancels(f, before[top], d[top + 1]);
              DivideStep(f, p[i + 1..], d, q, before, p[i], digit, remainder);
            }
          } else {
            var j := top;
            while j > 0
              invariant 0 <= j <= top && |remainder| == |d| - 1 && Elems(f, remainder) && poly == p
              invariant forall k :: j < k <= top ==> remainder[k] == before[k - 1]
              invariant forall k :: 0 <= k <= j ==> remainder[k] == before[k]
            {
              remainder := remainder[j := remainder[j - 1]];
              j := j - 1;
            }
            remainder := remainder[0 := p[i]];
            if d[top + 1] != 0 {
              PlainShift(f, before, p[i], d, remainder);
              DivideStep(f, p[i + 1..], d, q, before, p[i], 0, remainder);
            }
          }
          q := [digit] + q;
          assert p[i..] == [p[i]] + p[i + 1..];
          i := i - 1;
        }
        assert p[0..] == p;
        if d[top + 1] != 0 {
          SameQuotient(f, p, d, q, quotient, remainder);
        }
        q := quotient;
        poly := remainder;
      }
    }

    /** Remainder modulo a power of the indeterminate. */
    method ModPower(power: nat)
      requires Ok()
      modifies this
      ensures Ok()
      ensures poly == if |old(poly)| >= power then Strip(old(poly)[..power]) else old(poly)
    {
      if |poly| >= power {
        poly := poly[..power];
        Simplify();
      }
    }

    method ShiftLeft(n: nat)
      requires Ok()
      modifies this
      ensures Ok()
      ensures poly == if old(poly) == [] then [] else Zeros(n) + old(poly)
    {
      if |poly| > 0 {
        ghost var p := poly;
        var size := |poly|;
        poly := poly + Zeros(n);
        var i := size - 1;
        while i >= 0
          invariant -1 <= i < size && |poly| == size + n
          invariant Moved(p, poly, n, i + 1)
        {
          MoveStep(p, poly, n, i);
          poly := poly[i + n := poly[i]];
          i := i - 1;
        }
        assert poly[n..] == p;
        var k := 0;
        while k < n
          invariant 0 <= k <= n && |poly| == size + n
          invariant poly[..k] == Zeros(k) && poly[n..] == p
        {
          ClearStep(poly, n, k);
          poly := poly[k := 0];
          k := k + 1;
        }
        assert poly == poly[..n] + poly[n..];
        assert Ok();
      }
    }

    method Evaluate(x: nat) returns (r: nat)
      requires Ok() && Elem(f, x)
      ensures r == TableEval(f, poly, x)
      ensures x != 0 && |poly| <= Pow2(f.power) ==> r == Eval(f, poly, x)
    {
      hide Xor, Mul, TablePow, Eval;
      var i := 0;
      r := 0;
      while i < |poly|
        invariant 0 <= i <= |poly| && r == TableEval(f, poly[..i], x)
      {
        var p := Exp(f, x, i);
        var t := GenMul(f, p, poly[i]);
        assert poly[..i + 1][..i] == poly[..i];
        r := Xor(r, t);
        i := i + 1;
      }
      assert poly[..i] == poly;
      if x != 0 && |poly| <= Pow2(f.power) {
        TableEvalIsEval(f, poly, x);
      }
    }

    /** The formal derivative: every odd coefficient moves down one place. */
    method Derive() returns (d: Poly)
      requires Ok()
      ensures Elems(f, d) && Same(d, Derivative(poly)) && |d| <= |poly| + 1
    {
      if |poly| > 1 {
        var deriv := new FieldPolynomial.OfDegree(f, |poly| - 1);
        var i := 0;
        while i < |poly| - 1
          invariant 0 <= i <= |poly| && i % 2 == 0
          invariant deriv.Ok() && |deriv.poly| == |poly| && deriv.f == f
          invariant forall j :: 0 <= j < |poly| ==>
            deriv.poly[j] == if j < i && j % 2 == 0 && j + 1 < |poly| then poly[j + 1] else 0
        {
          deriv.poly := deriv.poly[i := poly[i + 1]];
          i := i + 2;
        }
        forall k: nat
          ensures At(deriv.poly, k) == At(Derivative(poly), k)
        {
          DerivativeAt(poly, k);
        }
        deriv.Simplify();
        d := deriv.poly;
      } else {
        d := [0];
      }
    }
  }

  /** `p = q d + r`, coefficient by coefficient. */
  ghost predicate DividedBy(f: GF, p: Poly, d: Poly, q: Poly, r: Poly) {
    forall m: nat :: At(p, m) == Xor(Conv(f, q, d, m), At(r, m))
  }

  lemma {:induction false} NotDivided(f: GF, d: Poly, r: Poly)
    requires forall j :: 0 <= j < |r| ==> r[j] == 0
    ensures DividedBy(f, [], d, [], r)
  {
    XorZero(0);
  }

  lemma {:induction false} SameQuotient(f: GF, p: Poly, d: Poly, q: Poly, q': Poly, r: Poly)
    requires DividedBy(f, p, d, q, r) && |q'| <= |q|
    requires forall k :: 0 <= k < |q| ==> q[k] == At(q', k)
    ensures DividedBy(f, p, d, q', r)
  {
    hide Xor, Conv;
    forall m: nat
      ensures At(p, m) == Xor(Conv(f, q', d, m), At(r, m))
    {
      assert Same(q, q');
      ConvSame(f, q, q', d, m);
    }
  }

  /** The digit that the register computes cancels its top coefficient. */
  lemma {:induction false} DigitCancels(f: GF, a: nat, b: nat)
    requires Elem(f, a) && Elem(f, b) && b != 0
    ensures Xor(a, Mul(f, Div(f, a, b), b)) == 0
  {
    hide Xor, Mul, Div;
    DivMul(f, a, b);
    XorSelf(a);
  }

  lemma {:induction false} PlainShift(f: GF, before: Poly, c: nat, d: Poly, after: Poly)
    requires |before| == |after| == |d| - 1 && 0 < |before|
    requires before[|before| - 1] == 0 && after[0] == c
    requires forall k :: 0 < k < |after| ==> after[k] == before[k - 1]
    ensures Xor(before[|before| - 1], Mul(f, 0, d[|d| - 1])) == 0
    ensures after[0] == Xor(c, Mul(f, 0, d[0]))
    ensures forall k :: 0 < k < |after| ==> after[k] == Xor(before[k - 1], Mul(f, 0, d[k]))
  {
    hide Xor, Mul;
    MulZero(f, d[|d| - 1]);
    MulZero(f, d[0]);
    XorZero(0);
    XorZero(c);
    forall k | 0 < k < |after|
      ensures after[k] == Xor(before[k - 1], Mul(f, 0, d[k]))
    {
      MulZero(f, d[k]);
      XorZero(before[k - 1]);
    }
  }

  /** One step of the shift register keeps the division identity. */
  lemma {:induction false} DivideStep(f: GF, p: Poly, d: Poly, q: Poly, r: Poly, c: nat, digit: nat, r': Poly)
    requires |r| == |r'| == |d| - 1 && 0 < |r|
    requires DividedBy(f, p, d, q, r)
    requires Xor(r[|r| - 1], Mul(f, digit, d[|r|])) == 0
    requires r'[0] == Xor(c, Mul(f, digit, d[0]))
    requires forall k :: 0 < k < |r| ==> r'[k] == Xor(r[k - 1], Mul(f, digit, d[k]))
    ensures DividedBy(f, [c] + p, d, [digit] + q, r')
  {
    hide Xor, Mul;
    var p', q' := [c] + p, [digit] + q;
    assert q'[1..] == q;
    forall m: nat
      ensures At(p', m) == Xor(Conv(f, q', d, m), At(r', m))
    {
      var t := Mul(f, digit, At(d, m));
      var s := Conv(f, q, d, m - 1);
      var e := if m == 0 then c else At(r, m - 1);
      assert At(p', m) == Xor(s, e) by {
        if m == 0 { XorZero(c); } else { assert At(p, m - 1) == Xor(Conv(f, q, d, m - 1), At(r, m - 1)); }
      }
      assert At(r', m) == Xor(e, t) by {
        if m > |r| { MulZero(f, digit); XorZero(0); }
      }
      XorComm(t, s);
      XorComm(e, t);
      XorMiddle(s, t, e);
    }
  }

  /** The coefficients from `i` on have been copied `n` places up. */
  ghost predicate Moved(p: Poly, r: Poly, n: nat, i: nat)
    requires i <= |p| && |r| == |p| + n
  {
    r[..i] == p[..i] && r[i + n..] == p[i..]
  }

  lemma {:induction false} MoveStep(p: Poly, r: Poly, n: nat, i: nat)
    requires i < |p| && |r| == |p| + n && Moved(p, r, n, i + 1)
    ensures Moved(p, r[i + n := r[i]], n, i)
  {
    var t := r[i + n := r[i]];
    assert r[i] == r[..i + 1][i];
    assert t[i + n..] == [p[i]] + r[i + 1 + n..];
    assert t[..i] == r[..i + 1][..i];
  }

  lemma {:induction false} ClearStep(r: Poly, n: nat, k: nat)
    requires k < n <= |r| && r[..k] == Zeros(k)
    ensures r[k := 0][..k + 1] == Zeros(k + 1) && r[k := 0][n..] == r[n..]
  {
    assert r[k := 0][..k + 1] == r[..k] + [0];
  }

  lemma {:induction false} SumIs(f: GF, p: Poly, q: Poly, r: Poly)
    requires Elems(f, p) && Elems(f, q)
    requires |r| == if |p| < |q| then |q| else |p|
    requires forall j :: 0 <= j < |r| ==>
               r[j] == if j < |p| && j < |q| then Xor(p[j], q[j]) else if j < |p| then p[j] else q[j]
    ensures r == Sum(p, q) && Elems(f, r)
  {
    hide Xor;
    var s := Sum(p, q);
    forall j | 0 <= j < |r|
      ensures r[j] == s[j] && Elem(f, r[j])
    {
      assert s[j] == At(s, j) == Xor(At(p, j), At(q, j));
      XorZero(At(p, j));
      XorZero(At(q, j));
      XorBound(At(p, j), At(q, j), f.power);
    }
  }

  lemma {:induction false} NoProduct(f: GF, q: Poly, zeros: Poly)
    requires forall m :: 0 <= m < |zeros| ==> zeros[m] == 0
    ensures zeros == PrefixProduct(f, [], q, |zeros|)
  {
    var r := PrefixProduct(f, [], q, |zeros|);
    forall m | 0 <= m < |zeros|
      ensures r[m] == 0
    {
      assert r[m] == At(r, m);
    }
  }

  /** One more row of the schoolbook product. */
  lemma {:induction false} RowAdded(f: GF, p: Poly, i: nat, q: Poly, row: Poly, next: Poly)
    requires i < |p| && |next| == |row| == |p| + |q|
    requires row == PrefixProduct(f, p[..i], q, |row|)
    requires forall m :: i <= m < i + |q| ==> next[m] == Xor(row[m], Mul(f, p[i], q[m - i]))
    requires forall m :: 0 <= m < |next| && !(i <= m < i + |q|) ==> next[m] == row[m]
    ensures next == PrefixProduct(f, p[..i + 1], q, |row|)
  {
    hide Xor, Mul, Conv;
    var r := PrefixProduct(f, p[..i + 1], q, |row|);
    assert p[..i + 1] == p[..i] + [p[i]];
    forall m | 0 <= m < |next|
      ensures next[m] == r[m]
    {
      assert r[m] == At(r, m) == Conv(f, p[..i + 1], q, m);
      assert row[m] == At(row, m) == Conv(f, p[..i], q, m);
      ConvSnoc(f, p[..i], p[i], q, m);
      if !(i <= m < i + |q|) {
        MulZero(f, p[i]);
        XorZero(row[m]);
      }
    }
  }
}
