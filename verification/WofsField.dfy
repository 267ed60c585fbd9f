/** The field that the file system uses: width 8 with the polynomial
`x^8 + x^7 + x^2 + x + 1`, shown to be primitive. */
module WofsField {
  import opened Bits
  import opened GaloisField
  import opened FieldTables

  const FIELD_DESCRIPTOR := 8
  const PRIMITIVE_POLYNOMIAL06: seq<nat> := [1, 1, 1, 0, 0, 0, 0, 1, 1]

  /** One step in arithmetic form: the low three bits are complemented and the top bit toggled. */
  function Step(a: nat): (r: nat) {
    if a >= 128 && a < 256 then
      var x := 2 * (a - 128);
      var y := x + 7 - 2 * (x % 8);
      if y >= 128 then y - 128 else y + 128
    else 2 * a
  }

  function Steps(k: nat, a: nat): nat {
    if k == 0 then a else Steps(k - 1, Step(a))
  }

  /** Exclusive-or with an odd number complements the lowest bit. */
  lemma {:induction false} XorOdd(k: nat, x: nat)
    requires k % 2 == 1
    ensures Xor(k, x) == 2 * Xor(k / 2, x / 2) + 1 - x % 2
  {
    hide Xor;
    XorHalf(k, x);
  }

  lemma {:induction false} LowBits(x: nat, y: nat, z: nat, w: nat)
    requires y == x / 2 && z == y / 2 && w == z / 2
    ensures x == 8 * w + x % 8 && x % 8 == 4 * (z % 2) + 2 * (y % 2) + x % 2
  {
    var low := 4 * (z % 2) + 2 * (y % 2) + x % 2;
    assert x == 8 * w + low && 0 <= low < 8;
  }

  lemma {:induction false} XorSeven(x: nat)
    ensures Xor(7, x) == x + 7 - 2 * (x % 8)
  {
    hide Xor;
    var y := x / 2;
    var z := y / 2;
    var w := z / 2;
    XorOdd(7, x);
    XorOdd(3, y);
    XorOdd(1, z);
    XorZero(w);
    LowBits(x, y, z, w);
  }

  lemma {:induction false} StepIsShift(a: nat)
    requires a < 256
    ensures Step(a) == Shift(8, 135, a) && Step(a) < 256
  {
    hide Xor;
    assert Pow2(7) == 128 && Pow2(8) == 256;
    if a >= 128 {
      var x := 2 * (a - 128);
      TopBit(8, a);
      XorTop(7, 7);
      XorAssoc(128, 7, x);
      XorSeven(x);
      var y := Xor(7, x);
      if y >= 128 {
        XorTop(y - 128, 7);
        XorCancel(128, y - 128);
      } else {
        XorTop(y, 7);
      }
    }
  }

  lemma {:induction false} StepsAreShifts(k: nat, a: nat)
    requires a < 256
    ensures Steps(k, a) == Shifts(8, 135, k, a)
    decreases k
  {
    hide Shift, Step;
    if k > 0 {
      StepIsShift(a);
      StepsAreShifts(k - 1, Step(a));
      ShiftsFirst(8, 135, k, a);
    }
  }

  lemma {:induction false} ShiftsFirst(power: nat, red: nat, k: nat, a: nat)
    requires power > 0 && k > 0
    ensures Shifts(power, red, k, a) == Shifts(power, red, k - 1, Shift(power, red, a))
    decreases k
  {
    hide Shift;
    if k > 1 {
      ShiftsFirst(power, red, k - 1, a);
    }
  }

  lemma {:induction false} StepsAdd(j: nat, k: nat, a: nat)
    ensures Steps(j + k, a) == Steps(k, Steps(j, a))
    decreases j
  {
    hide Step;
    if j > 0 {
      StepsAdd(j - 1, k, Step(a));
    }
  }

  lemma {:induction false} FiveSteps(a: nat, b: nat, c: nat, d: nat, e: nat, g: nat)
    requires Step(a) == b && Step(b) == c && Step(c) == d && Step(d) == e && Step(e) == g
    ensures Steps(5, a) == g
  {
    hide Step;
    assert Steps(1, e) == Steps(0, g);
    assert Steps(2, d) == Steps(1, e);
    assert Steps(3, c) == Steps(2, d);
    assert Steps(4, b) == Steps(3, c);
  }

  /** Fifteen steps, one at a time. */
  lemma {:induction false} Row(a0: nat, a1: nat, a2: nat, a3: nat, a4: nat, a5: nat, a6: nat, a7: nat,
      a8: nat, a9: nat, a10: nat, a11: nat, a12: nat, a13: nat, a14: nat, a15: nat)
    requires Step(a0) == a1 && Step(a1) == a2 && Step(a2) == a3 && Step(a3) == a4 && Step(a4) == a5 && Step(a5) == a6 && Step(a6) == a7
    requires Step(a7) == a8 && Step(a8) == a9 && Step(a9) == a10 && Step(a10) == a11 && Step(a11) == a12 && Step(a12) == a13 && Step(a13) == a14 && Step(a14) == a15
    ensures Steps(15, a0) == a15
  {
    hide Step, Steps;
    FiveSteps(a0, a1, a2, a3, a4, a5);
    FiveSteps(a5, a6, a7, a8, a9, a10);
    FiveSteps(a10, a11, a12, a13, a14, a15);
    StepsAdd(5, 5, a5);
    StepsAdd(5, 10, a0);
  }

  lemma {:induction false} Powers0To30()
    ensures Steps(30, 1) == 165
  {
    hide Steps;
    Row(1, 2, 4, 8, 16, 32, 64, 128, 135, 137, 149, 173, 221, 61, 122, 244);
    Row(244, 111, 222, 59, 118, 236, 95, 190, 251, 113, 226, 67, 134, 139, 145, 165);
    StepsAdd(15, 15, 1);
  }

  lemma {:induction false} Powers30To60()
    ensures Steps(30, 165) == 254
  {
    hide Steps;
    Row(165, 205, 29, 58, 116, 232, 87, 174, 219, 49, 98, 196, 15, 30, 60, 120);
    Row(120, 240, 103, 206, 27, 54, 108, 216, 55, 110, 220, 63, 126, 252, 127, 254);
    StepsAdd(15, 15, 165);
  }

  lemma {:induction false} Powers60To90()
    ensures Steps(30, 254) == 143
  {
    hide Steps;
    Row(254, 123, 246, 107, 214, 43, 86, 172, 223, 57, 114, 228, 79, 158, 187, 241);
    Row(241, 101, 202, 19, 38, 76, 152, 183, 233, 85, 170, 211, 33, 66, 132, 143);
    StepsAdd(15, 15, 254);
  }

  lemma {:induction false} Powers90To120()
    ensures Steps(30, 143) == 225
  {
    hide Steps;
    Row(143, 153, 181, 237, 93, 186, 243, 97, 194, 3, 6, 12, 24, 48, 96, 192);
    Row(192, 7, 14, 28, 56, 112, 224, 71, 142, 155, 177, 229, 77, 154, 179, 225);
    StepsAdd(15, 15, 143);
  }

  lemma {:induction false} Powers120To150()
    ensures Steps(30, 225) == 180
  {
    hide Steps;
    Row(225, 69, 138, 147, 161, 197, 13, 26, 52, 104, 208, 39, 78, 156, 191, 249);
    Row(249, 117, 234, 83, 166, 203, 17, 34, 68, 136, 151, 169, 213, 45, 90, 180);
    StepsAdd(15, 15, 225);
  }

  lemma {:induction false} Powers150To180()
    ensures Steps(30, 180) == 47
  {
    hide Steps;
    Row(180, 239, 89, 178, 227, 65, 130, 131, 129, 133, 141, 157, 189, 253, 125, 250);
    Row(250, 115, 230, 75, 150, 171, 209, 37, 74, 148, 175, 217, 53, 106, 212, 47);
    StepsAdd(15, 15, 180);
  }

  lemma {:induction false} Powers180To210()
    ensures Steps(30, 47) == 167
  {
    hide Steps;
    Row(47, 94, 188, 255, 121, 242, 99, 198, 11, 22, 44, 88, 176, 231, 73, 146);
    Row(146, 163, 193, 5, 10, 20, 40, 80, 160, 199, 9, 18, 36, 72, 144, 167);
    StepsAdd(15, 15, 47);
  }

  lemma {:induction false} Powers210To240()
    ensures Steps(30, 167) == 51
  {
    hide Steps;
    Row(167, 201, 21, 42, 84, 168, 215, 41, 82, 164, 207, 25, 50, 100, 200, 23);
    Row(23, 46, 92, 184, 247, 105, 210, 35, 70, 140, 159, 185, 245, 109, 218, 51);
    StepsAdd(15, 15, 167);
  }

  lemma {:induction false} Powers240To255()
    ensures Steps(15, 51) == 1
  {
    hide Steps;
    Row(51, 102, 204, 31, 62, 124, 248, 119, 238, 91, 182, 235, 81, 162, 195, 1);
  }

  lemma {:induction false} FirstPowers()
    ensures Steps(5, 1) == 32 && Steps(9, 1) == 137 && Steps(15, 1) == 244
  {
    assert Steps(4, 1) == 16;
    hide Steps;
    FiveSteps(1, 2, 4, 8, 16, 32);
    FiveSteps(16, 32, 64, 128, 135, 137);
    StepsAdd(4, 5, 1);
    Row(1, 2, 4, 8, 16, 32, 64, 128, 135, 137, 149, 173, 221, 61, 122, 244);
  }

  /** The primitive element returns to one after 255 steps, and not after 15, 51 or 85. */
  lemma {:induction false} Order()
    ensures Steps(255, 1) == 1 && Steps(15, 1) != 1 && Steps(51, 1) != 1 && Steps(85, 1) != 1
  {
    hide Steps, Step;
    FirstPowers();
    Powers0To30();
    Powers30To60();
    Powers60To90();
    Powers90To120();
    Powers120To150();
    Powers150To180();
    Powers180To210();
    Powers210To240();
    Powers240To255();
    StepsAdd(30, 30, 1);
    StepsAdd(60, 30, 1);
    StepsAdd(90, 30, 1);
    StepsAdd(120, 30, 1);
    StepsAdd(150, 30, 1);
    StepsAdd(180, 30, 1);
    StepsAdd(210, 30, 1);
    StepsAdd(240, 15, 1);
    StepsAdd(51, 9, 1);
    StepsAdd(85, 5, 1);
  }

  // ---------------------------------------------------------------------------------------
  // From the order to primitivity
  // ---------------------------------------------------------------------------------------

  /** The element before a step: an odd result comes from an element with its top bit set. */
  function Unstep(r: nat): int {
    if r % 2 == 1 then
      var y := if r >= 128 then r - 128 else r + 128;
      (y + 7 - 2 * (y % 8)) / 2 + 128
    else r / 2
  }

  lemma {:induction false} Eights(q: nat, m: nat)
    requires m < 8
    ensures (8 * q + m) % 8 == m
  {
  }

  lemma {:induction false} OddStep(q: nat, m: nat, r: nat)
    requires q < 32 && m < 4 && r == if q >= 16 then 8 * q + 7 - 2 * m - 128 else 8 * q + 7 - 2 * m + 128
    ensures Unstep(r) == 128 + 4 * q + m
  {
    Eights(q, 7 - 2 * m);
    assert r == 2 * (r / 2) + 1;
  }

  /** Steps can be undone. */
  lemma {:induction false} StepUndone(a: nat)
    requires a < 256
    ensures Unstep(Step(a)) == a
  {
    if a >= 128 {
      var q, m := (a - 128) / 4, (a - 128) % 4;
      Eights(q, 2 * m);
      Eights(q, 7 - 2 * m);
      assert Step(a) == if q >= 16 then 8 * q + 7 - 2 * m - 128 else 8 * q + 7 - 2 * m + 128;
      OddStep(q, m, Step(a));
    }
  }

  lemma {:induction false} StepInjective(a: nat, b: nat)
    requires a < 256 && b < 256 && Step(a) == Step(b)
    ensures a == b
  {
    hide Step, Unstep;
    StepUndone(a);
    StepUndone(b);
  }

  lemma {:induction false} StepsBound(k: nat, a: nat)
    requires a < 256
    ensures Steps(k, a) < 256
    decreases k
  {
    if k > 0 {
      StepIsShift(a);
      StepsBound(k - 1, Step(a));
    }
  }

  lemma {:induction false} StepsInjective(k: nat, a: nat, b: nat)
    requires a < 256 && b < 256 && Steps(k, a) == Steps(k, b)
    ensures a == b
    decreases k
  {
    hide Shift;
    if k > 0 {
      StepIsShift(a);
      StepIsShift(b);
      StepsInjective(k - 1, Step(a), Step(b));
      StepInjective(a, b);
    }
  }

  /** Whole periods do not count. */
  lemma {:induction false} PeriodMultiple(d: nat, k: nat, q: nat)
    requires Steps(d, 1) == 1
    ensures Steps(k + q * d, 1) == Steps(k, 1)
    decreases q
  {
    hide Steps;
    if q == 0 {
      assert k + q * d == k;
    } else {
      PeriodMultiple(d, k, q - 1);
      assert k + q * d == d + (k + (q - 1) * d);
      StepsAdd(d, k + (q - 1) * d, 1);
    }
  }

  /** A period of a period: the greatest common divisor of two periods is one. */
  lemma {:induction false} CommonPeriod(d: nat, n: nat) returns (g: nat, p: nat, q: nat)
    requires 0 < d && Steps(d, 1) == 1 && Steps(n, 1) == 1
    ensures 0 < g && Steps(g, 1) == 1 && d == g * p && n == g * q
    decreases d
  {
    hide Steps;
    var r, t := n % d, n / d;
    assert n == r + t * d;
    PeriodMultiple(d, r, t);
    if r == 0 {
      g, p, q := d, 1, t;
    } else {
      var p', q';
      g, p', q' := CommonPeriod(r, d);
      p, q := q', p' + t * q';
      assert n == g * p' + t * (g * q') == g * q;
    }
  }

  /** A proper divisor of 255 leaves a quotient divisible by 3, 5 or 17. */
  lemma {:induction false} DivisorsOf255(g: nat, q: nat)
    requires g * q == 255 && g < 255
    ensures q % 3 == 0 || q % 5 == 0 || q % 17 == 0
  {
    if q % 3 != 0 && q % 5 != 0 && q % 17 != 0 {
      CoprimeTo3(g, q);
      CoprimeTo5(g, q);
      CoprimeTo17(g, q);
    }
  }

  lemma {:induction false} CoprimeTo3(g: nat, q: nat)
    requires g * q == 255 && q % 3 != 0
    ensures g % 3 == 0
  {
    var a := q / 3;
    assert g * q == 3 * (g * a) + g * (q % 3);
  }

  lemma {:induction false} CoprimeTo5(g: nat, q: nat)
    requires g * q == 255 && q % 5 != 0
    ensures g % 5 == 0
  {
    var a, r := q / 5, q % 5;
    assert g * q == 5 * (g * a) + g * r;
    PrimeFive(g, r, 51 - g * a);
  }

  lemma {:induction false} PrimeFive(g: nat, r: nat, m: int)
    requires 0 < r < 5 && g * r == 5 * m
    ensures g % 5 == 0
  {
    if r == 1 {
    } else if r == 2 {
    } else if r == 3 {
    } else {
    }
  }

  lemma {:induction false} CoprimeTo17(g: nat, q: nat)
    requires g * q == 255 && q % 17 != 0
    ensures g % 17 == 0
  {
    var a, r := q / 17, q % 17;
    assert g * q == 17 * (g * a) + g * r;
    PrimeSeventeen(g, r, 15 - g * a);
  }

  /** The inverse of each residue modulo 17. */
  const INVERSE17: seq<nat> := [0, 1, 9, 6, 13, 7, 3, 5, 15, 2, 12, 14, 10, 4, 11, 8, 16]

  lemma {:induction false} InversesOf17(r: nat)
    requires 0 < r < 17
    ensures (r * INVERSE17[r]) % 17 == 1
  {
    if r < 9 {
      assert r == 1 || r == 2 || r == 3 || r == 4 || r == 5 || r == 6 || r == 7 || r == 8;
    } else {
      assert r == 9 || r == 10 || r == 11 || r == 12 || r == 13 || r == 14 || r == 15 || r == 16;
    }
  }

  lemma {:induction false} PrimeSeventeen(g: nat, r: nat, m: int)
    requires 0 < r < 17 && g * r == 17 * m
    ensures g % 17 == 0
  {
    InversesOf17(r);
    CancelInverse(g, r, m, INVERSE17[r], (r * INVERSE17[r]) / 17);
  }

  lemma {:induction false} CancelInverse(g: nat, r: nat, m: int, s: nat, t: nat)
    requires g * r == 17 * m && r * s == 17 * t + 1
    ensures g % 17 == 0
  {
    var u := m * s - g * t;
    calc {
      17 * u;
      17 * (m * s) - 17 * (g * t);
      (g * r) * s - g * (17 * t);
      g * (r * s) - g * (17 * t);
      g;
    }
  }

  /** No number of steps from 1 to 254 returns to one. */
  lemma {:induction false} NoShortPeriod(d: nat)
    requires 0 < d < 255
    ensures Steps(d, 1) != 1
  {
    hide Steps;
    Order();
    if Steps(d, 1) == 1 {
      var g, p, q := CommonPeriod(d, 255);
      MultipleBound(p, g);
      DivisorsOf255(g, q);
      if q % 3 == 0 {
        MultipleIsPeriod(g, q / 3, 85);
      } else if q % 5 == 0 {
        MultipleIsPeriod(g, q / 5, 51);
      } else {
        MultipleIsPeriod(g, q / 17, 15);
      }
    }
  }

  lemma {:induction false} MultipleIsPeriod(g: nat, k: nat, m: nat)
    requires Steps(g, 1) == 1 && m == g * k
    ensures Steps(m, 1) == 1
  {
    PeriodMultiple(g, 0, k);
    assert 0 + k * g == m;
    assert Steps(0, 1) == 1;
  }

  lemma {:induction false} PowersOfField(i: nat)
    ensures Power(FIELD_DESCRIPTOR, PRIMITIVE_POLYNOMIAL06, i) == Steps(i, 1)
  {
    assert Reduction(PRIMITIVE_POLYNOMIAL06, 8) == 135;
    StepsAreShifts(i, 1);
  }

  /** The polynomial that the file system passes to the field constructor is primitive. */
  lemma {:induction false} FieldPolynomialIsPrimitive()
    ensures Primitive(FIELD_DESCRIPTOR, PRIMITIVE_POLYNOMIAL06)
    ensures Pow2(FIELD_DESCRIPTOR) == 256
  {
    hide Steps, Power;
    assert Pow2(8) == 256;
    forall i, j | 0 <= i < j < 255
      ensures Power(8, PRIMITIVE_POLYNOMIAL06, i) != Power(8, PRIMITIVE_POLYNOMIAL06, j)
    {
      PowersOfField(i);
      PowersOfField(j);
      if Steps(i, 1) == Steps(j, 1) {
        StepsAdd(j - i, i, 1);
        StepsBound(j - i, 1);
        StepsInjective(i, 1, Steps(j - i, 1));
        NoShortPeriod(j - i);
      }
    }
    PowersOfField(255);
    Order();
  }
}
