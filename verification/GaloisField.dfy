/** The log and antilog tables of GF(2^power), how they are generated, and the proof that
arithmetic through them is a field. */
module GaloisField {
  import opened Bits

  const GFERROR := -1

  /** `alphaTo` is the antilog table (powers of the primitive element), `indexOf` the log table. */
  datatype Field = Field(power: nat, alphaTo: seq<nat>, indexOf: seq<int>)

  /** The number of non-zero elements, which is also the bit mask of a symbol. */
  function Size(f: Field): nat {
    Pow2(f.power) - 1
  }

  predicate Elem(f: Field, a: int) {
    0 <= a <= Size(f)
  }

  predicate Elems(f: Field, s: seq<int>) {
    forall i :: 0 <= i < |s| ==> Elem(f, s[i])
  }

  // ---------------------------------------------------------------------------------------
  // Multiplication by x modulo the field polynomial
  // ---------------------------------------------------------------------------------------

  /** One step of the table generation: shift left, and fold an overflowing top bit back
  through `red`, the field polynomial without its top term. */
  function Shift(power: nat, red: nat, a: nat): nat
    requires power > 0
  {
    if a >= Pow2(power - 1) then Xor(red, 2 * Xor(a, Pow2(power - 1))) else 2 * a
  }

  /** `k` steps. */
  function Shifts(power: nat, red: nat, k: nat, a: nat): nat
    requires power > 0
  {
    if k == 0 then a else Shift(power, red, Shifts(power, red, k - 1, a))
  }

  lemma {:induction false} TopBit(power: nat, a: nat)
    requires power > 0 && Pow2(power - 1) <= a < Pow2(power)
    ensures Xor(a, Pow2(power - 1)) == a - Pow2(power - 1)
    ensures a == Xor(Pow2(power - 1), a - Pow2(power - 1))
  {
    var h := Pow2(power - 1);
    XorTop(a - h, power - 1);
    XorCancel(h, a - h);
    XorComm(h, a - h);
  }

  lemma {:induction false} ShiftBound(power: nat, red: nat, a: nat)
    requires power > 0 && red < Pow2(power) && a < Pow2(power)
    ensures Shift(power, red, a) < Pow2(power)
  {
    if a >= Pow2(power - 1) {
      TopBit(power, a);
      XorBound(red, 2 * (a - Pow2(power - 1)), power);
    }
  }

  lemma {:induction false} ShiftsBound(power: nat, red: nat, k: nat, a: nat)
    requires power > 0 && red < Pow2(power) && a < Pow2(power)
    ensures Shifts(power, red, k, a) < Pow2(power)
    decreases k
  {
    hide Shift;
    if k > 0 {
      ShiftsBound(power, red, k - 1, a);
      ShiftBound(power, red, Shifts(power, red, k - 1, a));
    }
  }

  /** A step is linear when only the first operand has its top bit set. */
  lemma {:induction false} ShiftLinearMixed(power: nat, red: nat, a: nat, b: nat)
    requires power > 0 && red < Pow2(power)
    requires b < Pow2(power - 1) <= a < Pow2(power)
    ensures Shift(power, red, Xor(a, b)) == Xor(Shift(power, red, a), Shift(power, red, b))
  {
    hide Xor, Pow2;
    var h := Pow2(power - 1);
    var la := a - h;
    TopBit(power, a);
    assert Pow2(power) == 2 * h by { HalfOfPow2(power); }
    XorAssoc(h, la, b);
    XorBound(la, b, power - 1);
    XorTop(Xor(la, b), power - 1);
    assert Xor(a, b) == h + Xor(la, b);
    TopBit(power, Xor(a, b));
    XorDouble(la, b);
    XorAssoc(red, 2 * la, 2 * b);
  }

  lemma HalfOfPow2(power: nat)
    requires power > 0
    ensures Pow2(power) == 2 * Pow2(power - 1)
  {
  }

  lemma {:induction false} ShiftLinearBoth(power: nat, red: nat, a: nat, b: nat)
    requires power > 0 && red < Pow2(power)
    requires Pow2(power - 1) <= a < Pow2(power)
    requires Pow2(power - 1) <= b < Pow2(power)
    ensures Shift(power, red, Xor(a, b)) == Xor(Shift(power, red, a), Shift(power, red, b))
  {
    hide Xor, Pow2;
    var h := Pow2(power - 1);
    var la, lb := a - h, b - h;
    TopBit(power, a);
    TopBit(power, b);
    HalfOfPow2(power);
    XorSwap(h, la, h, lb);
    XorSelf(h);
    XorZero(Xor(la, lb));
    XorBound(la, lb, power - 1);
    XorDouble(la, lb);
    XorSwap(red, 2 * la, red, 2 * lb);
    XorSelf(red);
    XorZero(Xor(2 * la, 2 * lb));
  }

  /** A step is linear over exclusive-or. */
  lemma {:induction false} ShiftLinear(power: nat, red: nat, a: nat, b: nat)
    requires power > 0 && red < Pow2(power) && a < Pow2(power) && b < Pow2(power)
    ensures Shift(power, red, Xor(a, b)) == Xor(Shift(power, red, a), Shift(power, red, b))
  {
    var h := Pow2(power - 1);
    if a >= h && b >= h {
      ShiftLinearBoth(power, red, a, b);
    } else if a >= h {
      ShiftLinearMixed(power, red, a, b);
    } else if b >= h {
      ShiftLinearMixed(power, red, b, a);
      XorComm(a, b);
      XorComm(Shift(power, red, a), Shift(power, red, b));
    } else {
      XorBound(a, b, power - 1);
      XorDouble(a, b);
    }
  }

  lemma {:induction false} ShiftsLinear(power: nat, red: nat, k: nat, a: nat, b: nat)
    requires power > 0 && red < Pow2(power) && a < Pow2(power) && b < Pow2(power)
    ensures Shifts(power, red, k, Xor(a, b)) == Xor(Shifts(power, red, k, a), Shifts(power, red, k, b))
    decreases k
  {
    hide Shift, Xor;
    if k > 0 {
      ShiftsLinear(power, red, k - 1, a, b);
      ShiftsBound(power, red, k - 1, a);
      ShiftsBound(power, red, k - 1, b);
      ShiftLinear(power, red, Shifts(power, red, k - 1, a), Shifts(power, red, k - 1, b));
    }
  }

  // ---------------------------------------------------------------------------------------
  // Well-formed tables
  // ---------------------------------------------------------------------------------------

  ghost predicate StepAt(f: Field, i: nat)
    requires |f.alphaTo| == Pow2(f.power) && 0 < f.power < |f.alphaTo|
    requires i < Size(f)
  {
    f.alphaTo[i + 1] == Shift(f.power, f.alphaTo[f.power], f.alphaTo[i])
  }

  /** The antilog table runs through the non-zero elements in one cycle of `Shift`. */
  ghost predicate Cycle(f: Field) {
    && 2 <= f.power < Size(f)
    && |f.alphaTo| == Pow2(f.power)
    && Elem(f, f.alphaTo[f.power])
    && f.alphaTo[0] == 1 && f.alphaTo[Size(f)] == 1
    && forall i :: 0 <= i < Size(f) ==> StepAt(f, i)
  }

  /** The two tables are inverse to each other on the non-zero elements. */
  ghost predicate LogsInvert(f: Field) {
    && |f.alphaTo| == |f.indexOf| == Pow2(f.power)
    && f.indexOf[0] == GFERROR
    && (forall i :: 0 <= i < Size(f) ==> 0 < f.alphaTo[i] <= Size(f) && f.indexOf[f.alphaTo[i]] == i)
    && (forall a :: 0 < a <= Size(f) ==> 0 <= f.indexOf[a] < Size(f) && f.alphaTo[f.indexOf[a]] == a)
  }

  ghost predicate Valid(f: Field) {
    Cycle(f) && LogsInvert(f)
  }

  /** The smallest instance, GF(4), shows that valid tables exist. */
  ghost const GF4 := Field(2, [1, 2, 3, 1], [-1, 0, 1, 2])

  lemma GF4Valid()
    ensures Valid(GF4)
  {
    assert Pow2(2) == 4;
    assert Shift(2, 3, 1) == 2;
    assert Shift(2, 3, 2) == 3;
    assert Shift(2, 3, 3) == 1;
  }

  type GF = f: Field | Valid(f) ghost witness (GF4Valid(); GF4)

  // ---------------------------------------------------------------------------------------
  // Residues
  // ---------------------------------------------------------------------------------------

  lemma {:induction false} ModUnique(x: int, n: int, q: int, r: int)
    requires n > 0 && x == q * n + r && 0 <= r < n
    ensures x % n == r && x / n == q
  {
    var q', r' := x / n, x % n;
    assert (q - q') * n == r' - r;
    MultipleBound(q - q', n);
  }

  /** The non-negative remainder; for a field's `Size` it is what `normalize` computes. */
  function Residue(x: int, n: nat): (r: nat)
    requires n > 0
    ensures r < n
  {
    x % n
  }

  lemma {:induction false} ModAdd(x: int, y: int, n: nat)
    requires n > 0
    ensures Residue(Residue(x, n) + y, n) == Residue(x + y, n)
  {
    var s := x % n + y;
    assert x + y == (x / n + s / n) * n + s % n;
    ModUnique(x + y, n, x / n + s / n, s % n);
  }

  lemma {:induction false} ModSucc(x: int, n: nat)
    requires n > 0
    ensures Residue(x + 1, n) == if Residue(x, n) + 1 == n then 0 else Residue(x, n) + 1
  {
    if x % n + 1 == n {
      assert x + 1 == (x / n + 1) * n + 0;
      ModUnique(x + 1, n, x / n + 1, 0);
    } else {
      assert x + 1 == (x / n) * n + (x % n + 1);
      ModUnique(x + 1, n, x / n, x % n + 1);
    }
  }

  lemma {:induction false} ModAssoc(i: int, j: int, k: int, n: nat)
    requires n > 0
    ensures Residue(Residue(i + j, n) + k, n) == Residue(i + Residue(j + k, n), n)
  {
    hide Residue;
    ModAdd(i + j, k, n);
    ModAdd(j + k, i, n);
    assert i + Residue(j + k, n) == Residue(j + k, n) + i;
    assert i + j + k == j + k + i;
  }

  lemma {:induction false} ModSmall(x: int, n: nat)
    requires 0 <= x < n
    ensures x % n == x == Residue(x, n)
  {
    ModUnique(x, n, 0, x);
  }

  lemma {:induction false} XorMask(a: nat, b: nat, k: nat)
    ensures Xor(a, b) % Pow2(k) == Xor(a % Pow2(k), b % Pow2(k))
    decreases k
  {
    hide Xor;
    if k == 0 {
      XorZero(0);
    } else {
      XorMask(a / 2, b / 2, k - 1);
      XorMaskStep(a, b, Pow2(k - 1));
    }
  }

  lemma {:induction false} XorMaskStep(a: nat, b: nat, h: nat)
    requires h > 0 && Xor(a / 2, b / 2) % h == Xor(a / 2 % h, b / 2 % h)
    ensures Xor(a, b) % (2 * h) == Xor(a % (2 * h), b % (2 * h))
  {
    hide Xor;
    var x, y, z := a % (2 * h), b % (2 * h), Xor(a, b) % (2 * h);
    MaskHalf(a, h);
    MaskHalf(b, h);
    MaskHalf(Xor(a, b), h);
    XorHalf(a, b);
    XorHalf(x, y);
    assert z / 2 == Xor(x, y) / 2;
    assert z % 2 == Xor(x, y) % 2 by { ParitySum(a, b, x, y); }
    HalfParity(z, Xor(x, y));
  }

  lemma ParitySum(a: nat, b: nat, x: nat, y: nat)
    requires a % 2 == x % 2 && b % 2 == y % 2
    ensures (a + b) % 2 == (x + y) % 2
  {
  }

  lemma {:induction false} MaskHalf(a: nat, h: nat)
    requires h > 0
    ensures a % (2 * h) / 2 == a / 2 % h
    ensures a % (2 * h) % 2 == a % 2
  {
    var q, r := a / 2 / h, a / 2 % h;
    assert a / 2 == q * h + r;
    assert a == q * (2 * h) + (2 * r + a % 2);
    ModUnique(a, 2 * h, q, 2 * r + a % 2);
  }

  // ---------------------------------------------------------------------------------------
  // Table-driven arithmetic
  // ---------------------------------------------------------------------------------------

  function Low(f: Field, a: nat): (r: nat)
    ensures Elem(f, r)
    ensures Elem(f, a) ==> r == a
  {
    if a < Pow2(f.power) then a else a % Pow2(f.power)
  }

  function TableMul(f: GF, a: nat, b: nat): (r: nat)
    requires Elem(f, a) && Elem(f, b)
    ensures Elem(f, r)
  {
    if a == 0 || b == 0 then 0
    else f.alphaTo[Residue(f.indexOf[a] + f.indexOf[b], Size(f))]
  }

  /** The product of two symbols. Operands outside the field, on which the source would index
  past the end of its tables, are cut down to their low bits, so that the ring laws below
  hold without side conditions. */
  function Mul(f: GF, a: nat, b: nat): (r: nat)
    ensures Elem(f, r)
  {
    TableMul(f, Low(f, a), Low(f, b))
  }

  /** Division as the tables give it, zero when either operand is zero. */
  function Div(f: GF, a: nat, b: nat): (r: nat)
    requires Elem(f, a) && Elem(f, b)
    ensures Elem(f, r)
  {
    if a == 0 || b == 0 then 0
    else f.alphaTo[Residue(f.indexOf[a] - f.indexOf[b], Size(f))]
  }

  function Pow(f: GF, x: nat, k: nat): (r: nat)
    ensures Elem(f, r)
  {
    if k == 0 then 1 else Mul(f, x, Pow(f, x, k - 1))
  }

  lemma {:induction false} AlphaShifts(f: GF, i: nat, k: nat)
    requires i < Size(f)
    ensures Shifts(f.power, f.alphaTo[f.power], k, f.alphaTo[i]) == f.alphaTo[Residue(i + k, Size(f))]
    decreases k
  {
    hide Shift, Residue;
    if k == 0 {
      ModSmall(i, Size(f));
    } else {
      AlphaShifts(f, i, k - 1);
      ModSucc(i + k - 1, Size(f));
      assert StepAt(f, Residue(i + k - 1, Size(f)));
    }
  }

  /** Multiplying by the element with logarithm `k` is taking `k` steps. */
  lemma {:induction false} MulIsShifts(f: GF, c: nat, a: nat)
    requires 0 < c <= Size(f) && Elem(f, a)
    ensures TableMul(f, c, a) == Shifts(f.power, f.alphaTo[f.power], f.indexOf[c], a)
  {
    var red, k := f.alphaTo[f.power], f.indexOf[c];
    if a == 0 {
      ShiftsLinear(f.power, red, k, 1, 1);
      XorSelf(1);
      XorSelf(Shifts(f.power, red, k, 1));
    } else {
      AlphaShifts(f, f.indexOf[a], k);
    }
  }

  lemma {:induction false} MulComm(f: GF, a: nat, b: nat)
    ensures Mul(f, a, b) == Mul(f, b, a)
  {
  }

  lemma {:induction false} MulZero(f: GF, a: nat)
    ensures Mul(f, a, 0) == 0 && Mul(f, 0, a) == 0
  {
  }

  lemma {:induction false} MulOne(f: GF, a: nat)
    requires Elem(f, a)
    ensures Mul(f, 1, a) == a && Mul(f, a, 1) == a
  {
    if a != 0 {
      assert f.indexOf[f.alphaTo[0]] == 0;
      ModSmall(f.indexOf[a], Size(f));
    }
  }

  lemma {:induction false} MulAssoc(f: GF, a: nat, b: nat, c: nat)
    ensures Mul(f, Mul(f, a, b), c) == Mul(f, a, Mul(f, b, c))
  {
    hide Residue;
    var x, y, z := Low(f, a), Low(f, b), Low(f, c);
    if x != 0 && y != 0 && z != 0 {
      ModAssoc(f.indexOf[x], f.indexOf[y], f.indexOf[z], Size(f));
      assert f.indexOf[TableMul(f, x, y)] == Residue(f.indexOf[x] + f.indexOf[y], Size(f));
      assert f.indexOf[TableMul(f, y, z)] == Residue(f.indexOf[y] + f.indexOf[z], Size(f));
    }
  }

  lemma {:induction false} LowXor(f: Field, a: nat, b: nat)
    ensures Low(f, Xor(a, b)) == Xor(Low(f, a), Low(f, b))
  {
    hide Xor, Pow2;
    XorMask(a, b, f.power);
    if a < Pow2(f.power) { ModSmall(a, Pow2(f.power)); }
    if b < Pow2(f.power) { ModSmall(b, Pow2(f.power)); }
    if Xor(a, b) < Pow2(f.power) { ModSmall(Xor(a, b), Pow2(f.power)); }
  }

  /** Multiplication distributes over exclusive-or. */
  lemma {:induction false} MulXor(f: GF, c: nat, a: nat, b: nat)
    ensures Mul(f, c, Xor(a, b)) == Xor(Mul(f, c, a), Mul(f, c, b))
  {
    hide Xor, Shifts;
    var z, x, y := Low(f, c), Low(f, a), Low(f, b);
    LowXor(f, a, b);
    if z == 0 {
      XorZero(0);
    } else {
      XorBound(x, y, f.power);
      MulIsShifts(f, z, x);
      MulIsShifts(f, z, y);
      MulIsShifts(f, z, Xor(x, y));
      ShiftsLinear(f.power, f.alphaTo[f.power], f.indexOf[z], x, y);
    }
  }

  /** There are no zero divisors. */
  lemma {:induction false} MulNonzero(f: GF, a: nat, b: nat)
    requires Elem(f, a) && Elem(f, b) && a != 0 && b != 0
    ensures Mul(f, a, b) != 0
  {
  }

  lemma {:induction false} DivMul(f: GF, a: nat, b: nat)
    requires Elem(f, a) && Elem(f, b) && b != 0
    ensures Mul(f, Div(f, a, b), b) == a
    ensures Div(f, Mul(f, a, b), b) == a
    ensures a != 0 ==> Div(f, a, b) != 0
  {
    hide Residue;
    if a != 0 {
      var i, j, n := f.indexOf[a], f.indexOf[b], Size(f);
      ModAdd(i - j, j, n);
      ModAdd(i + j, -j, n);
      assert Residue(i + j, n) - j == Residue(i + j, n) + (-j);
      ModSmall(i, n);
      assert f.indexOf[Div(f, a, b)] == Residue(i - j, n);
      assert f.indexOf[Mul(f, a, b)] == Residue(i + j, n);
    }
  }

  // ---------------------------------------------------------------------------------------
  // Powers
  // ---------------------------------------------------------------------------------------

  lemma {:induction false} PowAdd(f: GF, x: nat, j: nat, k: nat)
    ensures Pow(f, x, j + k) == Mul(f, Pow(f, x, j), Pow(f, x, k))
    decreases j
  {
    hide Mul;
    if j == 0 {
      MulOne(f, Pow(f, x, k));
    } else {
      PowAdd(f, x, j - 1, k);
      MulAssoc(f, x, Pow(f, x, j - 1), Pow(f, x, k));
    }
  }

  /** `(ab)(cd) = (ac)(bd)`. */
  lemma {:induction false} MulSwap(f: GF, a: nat, b: nat, c: nat, d: nat)
    ensures Mul(f, Mul(f, a, b), Mul(f, c, d)) == Mul(f, Mul(f, a, c), Mul(f, b, d))
  {
    hide Mul;
    MulAssoc(f, a, b, Mul(f, c, d));
    MulAssoc(f, b, c, d);
    MulComm(f, b, c);
    MulAssoc(f, c, b, d);
    MulAssoc(f, a, c, Mul(f, b, d));
  }

  lemma {:induction false} PowMul(f: GF, x: nat, y: nat, k: nat)
    ensures Pow(f, Mul(f, x, y), k) == Mul(f, Pow(f, x, k), Pow(f, y, k))
    decreases k
  {
    hide Mul;
    if k == 0 {
      MulOne(f, 1);
    } else {
      PowMul(f, x, y, k - 1);
      MulSwap(f, x, y, Pow(f, x, k - 1), Pow(f, y, k - 1));
    }
  }

  lemma {:induction false} PowOne(f: GF, k: nat)
    ensures Pow(f, 1, k) == 1
    decreases k
  {
    hide Mul;
    if k > 0 {
      PowOne(f, k - 1);
      MulOne(f, 1);
    }
  }

  /** `(x^j)^k = (x^k)^j`. */
  lemma {:induction false} PowPow(f: GF, x: nat, j: nat, k: nat)
    ensures Pow(f, Pow(f, x, j), k) == Pow(f, Pow(f, x, k), j)
    decreases j
  {
    hide Mul;
    if j == 0 {
      PowOne(f, k);
    } else {
      PowPow(f, x, j - 1, k);
      PowMul(f, x, Pow(f, x, j - 1), k);
    }
  }

  lemma {:induction false} PowNonzero(f: GF, x: nat, k: nat)
    requires Elem(f, x) && x != 0
    ensures Pow(f, x, k) != 0
    decreases k
  {
    hide Mul;
    if k > 0 {
      PowNonzero(f, x, k - 1);
      MulNonzero(f, x, Pow(f, x, k - 1));
    }
  }

  /** The antilog of `i`; the source's `alpha(i)`. */
  function Alpha(f: GF, i: nat): (r: nat)
    requires i <= Size(f)
    ensures Elem(f, r) && r != 0
  {
    f.alphaTo[i]
  }

  lemma {:induction false} AlphaMul(f: GF, i: nat, j: nat)
    requires i < Size(f) && j < Size(f)
    ensures Mul(f, f.alphaTo[i], f.alphaTo[j]) == f.alphaTo[Residue(i + j, Size(f))]
  {
  }

  /** The antilog table holds the powers of its entry at one. */
  lemma {:induction false} AlphaPow(f: GF, i: nat, k: nat)
    requires i < Size(f)
    ensures Pow(f, f.alphaTo[i], k) == f.alphaTo[Residue(i * k, Size(f))]
    decreases k
  {
    hide Mul, Residue;
    var n := Size(f);
    if k == 0 {
      assert i * k == 0;
      ModSmall(0, n);
    } else {
      AlphaPow(f, i, k - 1);
      AlphaMul(f, i, Residue(i * (k - 1), n));
      ModAdd(i * (k - 1), i, n);
      assert i * (k - 1) + i == i * k;
    }
  }

  lemma {:induction false} AlphaIsPower(f: GF, i: nat)
    requires i <= Size(f)
    ensures Alpha(f, 1) == 2
    ensures Alpha(f, i) == Pow(f, 2, i)
  {
    assert Alpha(f, 1) == 2 by {
      assert StepAt(f, 0);
      Pow2Monotone(1, f.power - 1);
    }
    AlphaPow(f, 1, i);
    if i < Size(f) {
      ModSmall(i, Size(f));
    } else {
      ModUnique(Size(f), Size(f), 1, 0);
    }
  }

  lemma {:induction false} AlphaInjective(f: GF, i: nat, j: nat)
    requires i < Size(f) && j < Size(f) && Alpha(f, i) == Alpha(f, j)
    ensures i == j
  {
    assert f.indexOf[f.alphaTo[i]] == i;
  }

  /** Antilogs of complementary exponents are inverse to each other. */
  lemma {:induction false} AlphaInverse(f: GF, i: nat)
    requires i <= Size(f)
    ensures Mul(f, Alpha(f, i), Alpha(f, Size(f) - i)) == 1
  {
    hide Mul, Pow;
    var n := Size(f);
    if i == 0 || i == n {
      MulOne(f, 1);
    } else {
      AlphaMul(f, i, n - i);
      ModUnique(n, n, 1, 0);
      assert Residue(n, n) == 0;
    }
  }
}
