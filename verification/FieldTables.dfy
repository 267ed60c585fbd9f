/** How the tables are filled, and the operations that look values up in them. */
module FieldTables {
  import opened Bits
  import opened GaloisField

  // ---------------------------------------------------------------------------------------
  // Reducing an exponent
  // ---------------------------------------------------------------------------------------

  lemma {:induction false} ResidueShift(x: int, q: int, n: nat)
    requires n > 0
    ensures Residue(x - q * n, n) == Residue(x, n)
  {
    assert x - q * n == (x / n - q) * n + x % n;
    ModUnique(x - q * n, n, x / n - q, x % n);
  }

  lemma {:induction false} ResidueUp(x: int, n: nat)
    requires n > 0
    ensures Residue(x + n, n) == Residue(x, n)
  {
    ResidueShift(x + n, 1, n);
  }

  /** Reduces any exponent modulo the field size by the shift-and-mask fold. */
  method Normalize(f: Field, x: int) returns (r: nat)
    requires Size(f) > 0
    ensures r == Residue(x, Size(f))
  {
    hide Residue;
    var n := Size(f);
    var y := x;
    while y < 0
      invariant Residue(y, n) == Residue(x, n)
      decreases -y
    {
      ResidueUp(y, n);
      y := y + n;
    }
    while y >= n
      invariant 0 <= y && Residue(y, n) == Residue(x, n)
      decreases y
    {
      FoldStep(y, n);
      y := y - n;
      y := y / Pow2(f.power) + y % Pow2(f.power);
    }
    ModSmall(y, n);
    r := y;
  }

  /** One fold keeps the residue and makes the exponent smaller. */
  lemma {:induction false} FoldStep(y: nat, n: nat)
    requires 0 < n <= y
    ensures var z := y - n; 0 <= z / (n + 1) + z % (n + 1) < y
    ensures var z := y - n; Residue(z / (n + 1) + z % (n + 1), n) == Residue(y, n)
  {
    hide Residue;
    var z := y - n;
    var q := z / (n + 1);
    assert z == q * (n + 1) + z % (n + 1);
    assert q + z % (n + 1) == z - q * n;
    assert q * n >= 0;
    ResidueShift(y, 1, n);
    ResidueShift(z, q, n);
  }

  // ---------------------------------------------------------------------------------------
  // Lookups
  // ---------------------------------------------------------------------------------------

  method GenMul(f: GF, a: nat, b: nat) returns (r: nat)
    requires Elem(f, a) && Elem(f, b)
    ensures r == Mul(f, a, b)
  {
    if a == 0 || b == 0 {
      return 0;
    }
    var k := Normalize(f, f.indexOf[a] + f.indexOf[b]);
    r := f.alphaTo[k];
  }

  method GenDiv(f: GF, a: nat, b: nat) returns (r: nat)
    requires Elem(f, a) && Elem(f, b)
    ensures r == Div(f, a, b)
  {
    if a == 0 || b == 0 {
      return 0;
    }
    var k := Normalize(f, f.indexOf[a] - f.indexOf[b] + Size(f));
    ResidueUp(f.indexOf[a] - f.indexOf[b], Size(f));
    r := f.alphaTo[k];
  }

  /** The entry of the exponent table: zero has only zero powers, even the zeroth. */
  function TablePow(f: GF, a: nat, n: nat): (r: nat)
    requires Elem(f, a)
    ensures Elem(f, r)
  {
    if a == 0 then 0 else Pow(f, a, n)
  }

  method GenExp(f: GF, a: nat, n: nat) returns (r: nat)
    requires Elem(f, a)
    ensures r == TablePow(f, a, n)
  {
    if a == 0 {
      return 0;
    }
    AlphaPow(f, f.indexOf[a], n);
    if n == 0 {
      return 1;
    }
    var k := Normalize(f, f.indexOf[a] * n);
    r := f.alphaTo[k];
  }

  /** The inverse table holds inverses; its entry for zero is the primitive element. */
  method GenInverse(f: GF, a: nat) returns (r: nat)
    requires Elem(f, a)
    ensures Elem(f, r)
    ensures a != 0 ==> Mul(f, a, r) == 1
    ensures a == 0 ==> r == 2
  {
    var n := Size(f);
    var k := Normalize(f, n - f.indexOf[a]);
    r := f.alphaTo[k];
    if a == 0 {
      ResidueShift(n + 1, 1, n);
      ModSmall(1, n);
      AlphaIsPower(f, 1);
    } else {
      var i := f.indexOf[a];
      AlphaMul(f, i, k);
      ModAdd(n - i, i, n);
      ResidueShift(n, 1, n);
      ModSmall(0, n);
      assert k + i == i + k;
    }
  }

  /** The exponent as the lookup masks or wraps it: a non-negative one loses its high bits, a
  negative one is raised by the field size. */
  function TableExponent(f: GF, n: int): nat {
    if n >= 0 then n % Pow2(f.power) else Residue(n, Size(f))
  }

  method Exp(f: GF, a: nat, n: int) returns (r: nat)
    requires Elem(f, a)
    ensures n >= 0 || TableExponent(f, n) != 0 ==> r == TablePow(f, a, TableExponent(f, n))
    ensures n < 0 && TableExponent(f, n) == 0 ==> r == 1
  {
    if n >= 0 {
      r := GenExp(f, a, n % Pow2(f.power));
    } else {
      var m := n;
      while m < 0
        invariant m < Size(f) && Residue(m, Size(f)) == Residue(n, Size(f))
        decreases -m
      {
        ResidueUp(m, Size(f));
        m := m + Size(f);
      }
      ModSmall(m, Size(f));
      if m != 0 {
        r := GenExp(f, a, m);
      } else {
        r := 1;
      }
    }
  }

  // ---------------------------------------------------------------------------------------
  // Generation
  // ---------------------------------------------------------------------------------------

  /** The field polynomial without its top term, as a bit pattern. */
  function Reduction(prim: seq<nat>, k: nat): (r: nat)
    requires k <= |prim|
    ensures r < Pow2(k)
  {
    if k == 0 then 0
    else if prim[k - 1] != 0 then Pow2(k - 1) + Reduction(prim, k - 1)
    else Reduction(prim, k - 1)
  }

  /** The powers of the root of the field polynomial. */
  function Power(power: nat, prim: seq<nat>, i: nat): nat
    requires 0 < power <= |prim|
  {
    Shifts(power, Reduction(prim, power), i, 1)
  }

  /** The polynomial is primitive: its root runs through every non-zero element. */
  ghost predicate Primitive(power: nat, prim: seq<nat>) {
    && 2 <= power <= |prim|
    && (forall i, j :: 0 <= i < j < Pow2(power) - 1 ==> Power(power, prim, i) != Power(power, prim, j))
    && Power(power, prim, Pow2(power) - 1) == 1
  }

  lemma {:induction false} PowerBound(power: nat, prim: seq<nat>, i: nat)
    requires 0 < power <= |prim|
    ensures Power(power, prim, i) < Pow2(power)
  {
    Pow2Monotone(1, power);
    ShiftsBound(power, Reduction(prim, power), i, 1);
  }

  lemma {:induction false} PowerStep(power: nat, prim: seq<nat>, i: nat)
    requires 0 < power <= |prim|
    ensures Power(power, prim, i + 1) == Shift(power, Reduction(prim, power), Power(power, prim, i))
  {
  }

  /** The first powers are the single bits. */
  lemma {:induction false} PowerBits(power: nat, prim: seq<nat>, i: nat)
    requires 0 < power <= |prim| && i < power
    ensures Power(power, prim, i) == Pow2(i)
    decreases i
  {
    hide Xor, Reduction;
    if i > 0 {
      PowerBits(power, prim, i - 1);
      PowerStep(power, prim, i - 1);
      assert Pow2(i - 1) < Pow2(power - 1) by {
        Pow2Monotone(i, power - 1);
      }
    }
  }

  /** The first power that overflows folds to the reduction pattern itself. */
  lemma {:induction false} PowerFirstFold(power: nat, prim: seq<nat>)
    requires 0 < power <= |prim|
    ensures Power(power, prim, power) == Reduction(prim, power)
  {
    PowerBits(power, prim, power - 1);
    PowerStep(power, prim, power - 1);
    XorSelf(Pow2(power - 1));
    XorZero(Reduction(prim, power));
  }

  lemma {:induction false} ZeroStaysZero(power: nat, prim: seq<nat>, i: nat, k: nat)
    requires 0 < power <= |prim| && Power(power, prim, i) == 0 && i <= k
    ensures Power(power, prim, k) == 0
    decreases k
  {
    hide Xor, Reduction;
    if k > i {
      ZeroStaysZero(power, prim, i, k - 1);
      PowerStep(power, prim, k - 1);
    }
  }

  lemma {:induction false} PowerNonzero(power: nat, prim: seq<nat>, i: nat)
    requires Primitive(power, prim) && i < Pow2(power)
    ensures Power(power, prim, i) != 0
  {
    hide Power;
    if Power(power, prim, i) == 0 {
      ZeroStaysZero(power, prim, i, Pow2(power) - 1);
    }
  }

  // ---------------------------------------------------------------------------------------
  // The powers of a primitive root reach every non-zero element
  // ---------------------------------------------------------------------------------------

  ghost function PowerSet(power: nat, prim: seq<nat>, k: nat): set<nat>
    requires 0 < power <= |prim|
  {
    if k == 0 then {} else PowerSet(power, prim, k - 1) + {Power(power, prim, k - 1)}
  }

  lemma {:induction false} PowerSetMember(power: nat, prim: seq<nat>, k: nat, a: nat)
    requires 0 < power <= |prim|
    ensures a in PowerSet(power, prim, k) <==> exists i :: 0 <= i < k && Power(power, prim, i) == a
    decreases k
  {
    hide Power;
    if k > 0 {
      PowerSetMember(power, prim, k - 1, a);
    }
  }

  lemma {:induction false} PowerSetSize(power: nat, prim: seq<nat>, k: nat)
    requires Primitive(power, prim) && k <= Pow2(power) - 1
    ensures |PowerSet(power, prim, k)| == k
    decreases k
  {
    hide Power;
    if k > 0 {
      PowerSetSize(power, prim, k - 1);
      PowerSetMember(power, prim, k - 1, Power(power, prim, k - 1));
    }
  }

  ghost function UpTo(n: nat): (s: set<nat>)
    ensures forall a :: a in s <==> 0 < a <= n
    ensures |s| == n
  {
    if n == 0 then {} else UpTo(n - 1) + {n}
  }

  lemma {:induction false} SubsetOfSameSize(a: set<nat>, b: set<nat>)
    requires a <= b && |a| == |b|
    ensures a == b
  {
    assert b == a + (b - a);
    assert |b| == |a| + |b - a|;
  }

  lemma {:induction false} EveryElementIsAPower(power: nat, prim: seq<nat>, a: nat)
    requires Primitive(power, prim) && 0 < a < Pow2(power)
    ensures exists i :: 0 <= i < Pow2(power) - 1 && Power(power, prim, i) == a
  {
    hide Power;
    var n := Pow2(power) - 1;
    var s := PowerSet(power, prim, n);
    forall b | b in s
      ensures b in UpTo(n)
    {
      PowerSetMember(power, prim, n, b);
      var i :| 0 <= i < n && Power(power, prim, i) == b;
      PowerNonzero(power, prim, i);
      PowerBound(power, prim, i);
    }
    PowerSetSize(power, prim, n);
    SubsetOfSameSize(s, UpTo(n));
    assert a in UpTo(n);
    PowerSetMember(power, prim, n, a);
  }

  // ---------------------------------------------------------------------------------------
  // Filling the tables
  // ---------------------------------------------------------------------------------------

  lemma {:induction false} SizeAbovePower(power: nat)
    requires power >= 2
    ensures power < Pow2(power) - 1
  {
    if power > 2 {
      SizeAbovePower(power - 1);
    }
  }

  /** What the antilog table holds once it is filled. */
  ghost predicate Filled(power: nat, prim: seq<nat>, alphaTo: seq<nat>)
    requires 0 < power <= |prim|
  {
    && |alphaTo| == Pow2(power)
    && alphaTo[Pow2(power) - 1] == 1
    && forall i :: 0 <= i < Pow2(power) - 1 ==> alphaTo[i] == Power(power, prim, i)
  }

  /** What the log table holds once it is filled. */
  ghost predicate Indexed(power: nat, prim: seq<nat>, indexOf: seq<int>)
    requires 0 < power <= |prim|
  {
    && |indexOf| == Pow2(power)
    && indexOf[0] == GFERROR
    && forall i :: 0 <= i < Pow2(power) - 1 ==>
         Power(power, prim, i) < Pow2(power) && indexOf[Power(power, prim, i)] == i
  }

  lemma {:induction false} FilledCycle(f: Field, prim: seq<nat>)
    requires Primitive(f.power, prim) && Filled(f.power, prim, f.alphaTo)
    ensures Cycle(f)
  {
    hide Shift, Reduction, Shifts;
    SizeAbovePower(f.power);
    PowerFirstFold(f.power, prim);
    PowerBits(f.power, prim, 0);
    forall i | 0 <= i < Size(f)
      ensures StepAt(f, i)
    {
      PowerStep(f.power, prim, i);
    }
  }

  /** Only the powers of a primitive root fill two tables that are inverse to each other. */
  lemma {:induction false} ValidIsPrimitive(f: Field, prim: seq<nat>)
    requires 2 <= f.power <= |prim| && Filled(f.power, prim, f.alphaTo) && Valid(f)
    ensures Primitive(f.power, prim)
  {
    hide Shift, Reduction, Power;
    var n := Size(f);
    forall i, j | 0 <= i < j < n
      ensures Power(f.power, prim, i) != Power(f.power, prim, j)
    {
      assert f.indexOf[f.alphaTo[i]] == i && f.indexOf[f.alphaTo[j]] == j;
    }
    PowerFirstFold(f.power, prim);
    PowerStep(f.power, prim, n - 1);
    assert StepAt(f, n - 1);
  }

  lemma {:induction false} FilledLogs(f: Field, prim: seq<nat>)
    requires Primitive(f.power, prim) && Filled(f.power, prim, f.alphaTo) && Indexed(f.power, prim, f.indexOf)
    ensures LogsInvert(f)
  {
    hide Power, Reduction;
    forall i | 0 <= i < Size(f)
      ensures 0 < f.alphaTo[i] <= Size(f)
    {
      PowerNonzero(f.power, prim, i);
      PowerBound(f.power, prim, i);
    }
    forall a | 0 < a <= Size(f)
      ensures 0 <= f.indexOf[a] < Size(f) && f.alphaTo[f.indexOf[a]] == a
    {
      EveryElementIsAPower(f.power, prim, a);
    }
  }

  ghost predicate PowersTo(power: nat, prim: seq<nat>, alphaTo: seq<nat>, i: nat)
    requires 0 < power <= |prim|
  {
    i <= |alphaTo| && forall k :: 0 <= k < i ==> alphaTo[k] == Power(power, prim, k)
  }

  /** For a primitive polynomial, the first `i` powers find their exponents. */
  ghost predicate LogsTo(power: nat, prim: seq<nat>, indexOf: seq<int>, i: nat)
    requires 0 < power <= |prim|
  {
    Primitive(power, prim) ==>
      forall k :: 0 <= k < i ==> Power(power, prim, k) < |indexOf| && indexOf[Power(power, prim, k)] == k
  }

  lemma {:induction false} LogsStep(power: nat, prim: seq<nat>, indexOf: seq<int>, i: nat)
    requires 0 < power <= |prim| && i < Pow2(power) - 1 && |indexOf| == Pow2(power)
    requires LogsTo(power, prim, indexOf, i)
    ensures Power(power, prim, i) < Pow2(power)
    ensures LogsTo(power, prim, indexOf[Power(power, prim, i) := i], i + 1)
  {
    hide Power;
    PowerBound(power, prim, i);
  }

  lemma {:induction false} TablesValid(f: Field, prim: seq<nat>, indexOf: seq<int>)
    requires Primitive(f.power, prim) && Filled(f.power, prim, f.alphaTo)
    requires |indexOf| == Pow2(f.power) && LogsTo(f.power, prim, indexOf, Pow2(f.power) - 1)
    requires f.indexOf == indexOf[0 := GFERROR]
    ensures Valid(f)
  {
    hide Power, Valid;
    forall k | 0 <= k < Pow2(f.power) - 1
      ensures Power(f.power, prim, k) < Pow2(f.power) && f.indexOf[Power(f.power, prim, k)] == k
    {
      PowerNonzero(f.power, prim, k);
    }
    FilledCycle(f, prim);
    FilledLogs(f, prim);
    ValidFromParts(f);
  }

  lemma ValidFromParts(f: Field)
    requires Cycle(f) && LogsInvert(f)
    ensures Valid(f)
  {
  }

  /** Fills both tables. The antilogs are the powers of the root whatever the polynomial; when it
  is primitive, the two tables are those of a field. */
  method GenerateField(power: nat, prim: seq<nat>) returns (f: Field)
    requires 2 <= power <= |prim|
    ensures f.power == power && Filled(power, prim, f.alphaTo)
    ensures Valid(f) <==> Primitive(power, prim)
  {
    hide Shift, Power, Xor, Valid, LogsTo, Primitive;
    var n := Pow2(power) - 1;
    SizeAbovePower(power);
    var alphaTo := new nat[n + 1];
    var indexOf := new int[n + 1];
    var mask := 1;
    alphaTo[power] := 0;
    NoLogs(power, prim, indexOf[..]);
    var i := 0;
    while i < power
      invariant 0 <= i <= power && mask == Pow2(i)
      invariant alphaTo[power] == Reduction(prim, i)
      invariant PowersTo(power, prim, alphaTo[..], i)
      invariant LogsTo(power, prim, indexOf[..], i)
    {
      PowerBits(power, prim, i);
      LogsStep(power, prim, indexOf[..], i);
      alphaTo[i] := mask;
      indexOf[alphaTo[i]] := i;
      if prim[i] != 0 {
        XorTop(alphaTo[power], i);
        XorComm(alphaTo[power], mask);
        alphaTo[power] := Xor(alphaTo[power], mask);
      }
      mask := 2 * mask;
      i := i + 1;
    }
    PowerFirstFold(power, prim);
    LogsStep(power, prim, indexOf[..], power);
    indexOf[alphaTo[power]] := power;
    mask := mask / 2;
    i := power + 1;
    while i < n
      invariant power < i <= n
      invariant alphaTo[power] == Reduction(prim, power)
      invariant PowersTo(power, prim, alphaTo[..], i)
      invariant LogsTo(power, prim, indexOf[..], i)
    {
      PowerStep(power, prim, i - 1);
      NextPower(power, alphaTo[power], alphaTo[i - 1]);
      LogsStep(power, prim, indexOf[..], i);
      if alphaTo[i - 1] >= mask {
        alphaTo[i] := Xor(alphaTo[power], 2 * Xor(alphaTo[i - 1], mask));
      } else {
        alphaTo[i] := 2 * alphaTo[i - 1];
      }
      indexOf[alphaTo[i]] := i;
      i := i + 1;
    }
    ghost var logs := indexOf[..];
    indexOf[0] := GFERROR;
    alphaTo[n] := 1;
    f := Field(power, alphaTo[..], indexOf[..]);
    if Primitive(power, prim) {
      TablesValid(f, prim, logs);
    }
    if Valid(f) {
      ValidIsPrimitive(f, prim);
    }
  }

  lemma NoLogs(power: nat, prim: seq<nat>, indexOf: seq<int>)
    requires 0 < power <= |prim|
    ensures LogsTo(power, prim, indexOf, 0)
  {
  }

  lemma {:induction false} NextPower(power: nat, red: nat, a: nat)
    requires power > 0
    ensures Shift(power, red, a) == if a >= Pow2(power - 1) then Xor(red, 2 * Xor(a, Pow2(power - 1))) else 2 * a
  {
  }
}
