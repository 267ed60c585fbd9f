/** A block for which the decoder reports success and leaves something that is no codeword: its
syndromes are those of a single error, except for the first one. */
module Misleading {
  import opened Bits
  import opened GaloisField
  import opened Polynomial
  import opened Generator
  import opened FieldPolynomial
  import opened Locator
  import opened BerlekampMassey
  import opened Encoder
  import opened Correction
  import opened Outcome
  import opened Decoder
  import opened ByteString
  import opened FileCodec

  // ---------------------------------------------------------------------------------------
  // The block
  // ---------------------------------------------------------------------------------------

  lemma {:induction false} GeneratorExists(f: GF, first: nat, count: nat) returns (g: Poly)
    requires first + count <= Size(f)
    ensures IsGenerator(f, g, first, count, 1)
    decreases count
  {
    hide IsGenerator, Strip, Alpha;
    if count == 0 {
      g := [1];
      NoRoots(f, first, 1);
    } else {
      var h := GeneratorExists(f, first, count - 1);
      AddRoot(f, h, first, count - 1, 1);
      g := Strip(PrefixProduct(f, h, [Alpha(f, first + count - 1), 1], |h| + 2));
    }
  }

  /** The syndromes of one error of ratio alpha, with the first one taken away. */
  ghost predicate AlmostOneError(f: GF, s: Poly)
  {
    |s| <= Size(f) && forall j :: 0 <= j < |s| ==> s[j] == if j == 0 then 0 else Alpha(f, j)
  }

  /** A power of alpha divided by another. */
  lemma {:induction false} DividedPower(f: GF, i: nat, j: nat)
    requires i + j <= Size(f)
    ensures Mul(f, Alpha(f, i + j), Inv(f, Alpha(f, i))) == Alpha(f, j)
  {
    hide Mul, Pow, Inv, Alpha;
    AlphaIsPower(f, i);
    AlphaIsPower(f, j);
    AlphaIsPower(f, i + j);
    PowAdd(f, 2, i, j);
    var a, b, v := Alpha(f, i), Alpha(f, j), Inv(f, Alpha(f, i));
    InvMul(f, a);
    MulComm(f, a, b);
    MulAssoc(f, b, a, v);
    MulOne(f, b);
  }

  lemma {:induction false} EvalMonomial(f: GF, v: nat, x: nat)
    ensures Eval(f, [0, v], x) == Mul(f, x, v)
  {
    hide Mul, Xor;
    assert [0, v][1..] == [v] && [v][1..] == [];
    assert Eval(f, [], x) == 0;
    MulZero(f, x);
    XorZero(v);
    XorZero(Mul(f, x, v));
  }

  /** The polynomial: one that vanishes at all roots of the code but the first, and one error. */
  ghost function MisleadingPoly(f: GF, first: nat, g: Poly): (p: Poly)
    requires first < Size(f) && Elems(f, g) && g != []
    ensures |p| == if |g| < 2 then 2 else |g|
  {
    EvalElem(f, g, Alpha(f, first));
    Sum(Scale(f, Inv(f, Eval(f, g, Alpha(f, first))), g), [0, Inv(f, Alpha(f, first))])
  }

  lemma {:induction false} MisleadingElems(f: GF, first: nat, g: Poly)
    requires first < Size(f) && Elems(f, g) && g != []
    ensures Elems(f, MisleadingPoly(f, first, g))
  {
    hide Xor, Mul, Eval, Alpha, Inv;
    EvalElem(f, g, Alpha(f, first));
    var u, w := Scale(f, Inv(f, Eval(f, g, Alpha(f, first))), g), [0, Inv(f, Alpha(f, first))];
    var p := MisleadingPoly(f, first, g);
    forall i | 0 <= i < |p|
      ensures Elem(f, p[i])
    {
      assert p[i] == At(p, i) == Xor(At(u, i), At(w, i));
      XorBound(At(u, i), At(w, i), f.power);
    }
  }

  lemma {:induction false} MisleadingValue(f: GF, first: nat, fec: nat, g: Poly, j: nat)
    requires j < fec && first + fec <= Size(f) && IsGenerator(f, g, first + 1, fec - 1, 1)
    ensures Eval(f, MisleadingPoly(f, first, g), Alpha(f, first + j)) == if j == 0 then 0 else Alpha(f, j)
  {
    hide Mul, Xor, Eval, Alpha, Inv;
    var z, e := Alpha(f, first + j), Eval(f, g, Alpha(f, first));
    EvalElem(f, g, Alpha(f, first));
    var c, v := Inv(f, e), Inv(f, Alpha(f, first));
    EvalSum(f, Scale(f, c, g), [0, v], z);
    EvalScale(f, c, g, z);
    EvalMonomial(f, v, z);
    DividedPower(f, first, j);
    if j == 0 {
      assert e != 0;
      InvMul(f, e);
      AlphaIsPower(f, 0);
      FirstPower(f);
      XorSelf(1);
    } else {
      assert Eval(f, g, z) == 0;
      MulZero(f, c);
      XorZero(Alpha(f, j));
    }
  }

  lemma {:induction false} FirstPower(f: GF)
    ensures Pow(f, 2, 0) == 1
  {
  }

  lemma {:induction false} MisleadingBlock(f: GF, first: nat, fec: nat) returns (a: seq<int>, s: Poly)
    requires 2 <= fec && first + fec <= Size(f)
    ensures |a| == Size(f) && |s| == fec && Syndromes(f, first, a, s) && AlmostOneError(f, s)
  {
    hide Eval, Alpha, MisleadingPoly;
    var g := GeneratorExists(f, first + 1, fec - 1);
    var p := MisleadingPoly(f, first, g);
    MisleadingElems(f, first, g);
    a := seq(Size(f), i => At(p, Size(f) - 1 - i));
    s := seq(fec, j requires 0 <= j < fec => if j == 0 then 0 else Alpha(f, j));
    LoadsAs(f, a, p);
    forall j | 0 <= j < fec
      ensures s[j] == Eval(f, Load(f, a), Alpha(f, first + j))
    {
      MisleadingValue(f, first, fec, g, j);
      EvalSame(f, Load(f, a), p, Alpha(f, first + j));
    }
  }

  lemma {:induction false} LoadsAs(f: GF, a: seq<int>, p: Poly)
    requires |a| == Size(f) && |p| <= |a| && Elems(f, p)
    requires forall i :: 0 <= i < |a| ==> a[i] == At(p, |a| - 1 - i)
    ensures Same(Load(f, a), p)
  {
    hide Symbol;
    forall i: nat
      ensures At(Load(f, a), i) == At(p, i)
    {
      if i < |a| {
        assert Load(f, a)[i] == Symbol(f, a[|a| - 1 - i]);
        assert Elem(f, At(p, i));
      }
    }
  }

  // ---------------------------------------------------------------------------------------
  // Its locator
  // ---------------------------------------------------------------------------------------

  lemma {:induction false} ConvStep(f: GF, a: Poly, b: Poly, m: nat)
    requires a != []
    ensures Conv(f, a, b, m) == Xor(Mul(f, a[0], At(b, m)), Conv(f, a[1..], b, m - 1))
    ensures |a| == 1 ==> Conv(f, a, b, m) == Mul(f, a[0], At(b, m))
  {
    hide Mul, Xor;
    XorZero(Mul(f, a[0], At(b, m)));
  }

  /** Consecutive powers of alpha. */
  lemma {:induction false} AlphaNext(f: GF, i: nat)
    requires i < Size(f)
    ensures Mul(f, Alpha(f, 1), Alpha(f, i)) == Alpha(f, i + 1)
  {
    hide Mul, Pow, Alpha;
    AlphaIsPower(f, 1);
    AlphaIsPower(f, i);
    AlphaIsPower(f, i + 1);
    PowAdd(f, 2, 1, i);
  }

  lemma {:induction false} OneErrorGenerates(f: GF, s: Poly)
    requires AlmostOneError(f, s) && Size(f) >= 1
    ensures Generates(f, [1, Alpha(f, 1)], 2, s, |s|)
  {
    hide Mul, Xor, Conv, Alpha;
    var a := [1, Alpha(f, 1)];
    assert a[1..] == [Alpha(f, 1)];
    forall m | 2 <= m < |s|
      ensures Conv(f, a, s, m) == 0
    {
      ConvStep(f, a, s, m);
      ConvStep(f, a[1..], s, m - 1);
      AlphaNext(f, m - 1);
      MulOne(f, Alpha(f, m));
      XorSelf(Alpha(f, m));
    }
  }

  /** A recurrence of length two for these syndromes has the locator of the single error. */
  lemma {:induction false} OnlyLocator(f: GF, c: Poly, s: Poly)
    requires AlmostOneError(f, s) && |s| >= 4 && Generates(f, c, 2, s, |s|) && c[|c| - 1] != 0
    ensures c == [1, Alpha(f, 1)]
  {
    hide Mul, Xor, Conv, Alpha;
    var x := Alpha(f, 1);
    ConvStep(f, c, s, 2);
    ConvStep(f, c, s, 3);
    MulOne(f, Alpha(f, 2));
    MulOne(f, Alpha(f, 3));
    if |c| > 1 {
      ConvStep(f, c[1..], s, 1);
      ConvStep(f, c[1..], s, 2);
      AlphaNext(f, 1);
      AlphaNext(f, 2);
      if |c| == 2 {
        XorZeroEqual(Alpha(f, 2), Mul(f, c[1], x));
        CancelRight(f, c[1], x, x);
      } else {
        assert c[1..][1..] == [c[2]];
        ConvStep(f, [c[2]], s, 0);
        ConvStep(f, [c[2]], s, 1);
        MulZero(f, c[2]);
        XorZero(Mul(f, c[1], x));
        XorZeroEqual(Alpha(f, 2), Mul(f, c[1], x));
        CancelRight(f, c[1], x, x);
        ThirdVanishes(f, c[2], Alpha(f, 3), x);
      }
    }
  }

  lemma {:induction false} CancelRight(f: GF, a: nat, b: nat, x: nat)
    requires Elem(f, a) && Elem(f, b) && Elem(f, x) && x != 0 && Mul(f, a, x) == Mul(f, b, x)
    ensures a == b
  {
    hide Mul, Div;
    DivMul(f, a, x);
    DivMul(f, b, x);
  }

  lemma {:induction false} ThirdVanishes(f: GF, c: nat, e: nat, x: nat)
    requires Elem(f, c) && Elem(f, x) && x != 0 && Xor(e, Xor(e, Mul(f, c, x))) == 0
    ensures c == 0
  {
    hide Mul, Xor;
    XorCancel(e, Mul(f, c, x));
    if c != 0 {
      MulNonzero(f, c, x);
    }
  }

  lemma {:induction false} NoShorterRecurrence(f: GF, c: Poly, l: nat, s: Poly)
    requires AlmostOneError(f, s) && |s| >= 2 && Generates(f, c, l, s, |s|)
    ensures l >= 2
  {
    hide Mul, Xor, Alpha;
    if l < 2 {
      MulOne(f, Alpha(f, 1));
      ConvStep(f, c, s, 1);
      if |c| == 2 {
        ConvStep(f, c[1..], s, 0);
        MulZero(f, c[1]);
        XorZero(Alpha(f, 1));
      }
    }
  }

  lemma {:induction false} OneRoot(f: GF, roots: seq<nat>)
    requires Size(f) >= 2 && RootExponents(f, [1, Alpha(f, 1)], roots)
    ensures |roots| == 1
  {
    hide Mul, Xor, Eval, Alpha;
    var a, n := [1, Alpha(f, 1)], Size(f);
    EvalLocator(f, Alpha(f, 1), Alpha(f, n - 1));
    AlphaInverse(f, n - 1);
    XorSelf(1);
    assert n - 1 in roots;
    assert a[0] != 0;
    ExponentBound(f, a, roots);
  }

  lemma {:induction false} EvalLocator(f: GF, c: nat, x: nat)
    ensures Eval(f, [1, c], x) == Xor(1, Mul(f, x, c))
  {
    hide Mul, Xor;
    assert [1, c][1..] == [c] && [c][1..] == [];
    assert Eval(f, [], x) == 0;
    MulZero(f, x);
    XorZero(c);
  }

  /** Such syndromes are accepted, and the block they are corrected to is no codeword. */
  lemma {:induction false} Misled(f: GF, first: nat, fec: nat, a: seq<int>)
    requires fec >= 4 && first + fec <= Size(f) && |a| == Size(f)
    requires AlmostOneError(f, TraceOf(f, first, fec, a).syndromes)
    ensures Accepted(fec, TraceOf(f, first, fec, a)) && !Codeword(f, first, fec, CorrectedBlock(f, first, fec, a))
  {
    hide Eval, Alpha, Codeword, Syndromes, Conv, RootExponents, TraceOf, CorrectedBlock;
    var t := TraceOf(f, first, fec, a);
    TraceMeaning(f, first, fec, a);
    var s := t.syndromes;
    OneErrorGenerates(f, s);
    NoShorterRecurrence(f, t.locator, t.length, s);
    assert t.length == 2;
    OnlyLocator(f, t.locator, s);
    OneRoot(f, t.roots);
    TrueResult(f, first, fec, a);
  }

  /** A true result is not always a codeword: for every code with at least four parity symbols there
  is a block on which the decoder ends with a true result and no codeword. */
  lemma {:induction false} TrueWithoutCodeword(f: GF, first: nat, fec: nat) returns (a: seq<int>)
    requires fec >= 4 && first + fec <= Size(f)
    ensures |a| == Size(f)
    ensures forall after, ok :: Explains(f, first, fec, a, after, ok) ==> ok && !Codeword(f, first, fec, after)
  {
    hide Eval, Alpha, Codeword, AlmostOneError, TraceOf, CorrectedBlock, Accepted;
    var s;
    a, s := MisleadingBlock(f, first, fec);
    SameSyndromes(f, first, fec, a, s);
    Misled(f, first, fec, a);
  }

  lemma {:induction false} SameSyndromes(f: GF, first: nat, fec: nat, a: seq<int>, s: Poly)
    requires first + fec <= Size(f) + 1 && |s| == fec && Syndromes(f, first, a, s)
    ensures TraceOf(f, first, fec, a).syndromes == s
  {
    hide Eval, Alpha, Massey, RootsUpTo;
    assert forall j :: 0 <= j < fec ==> SyndromesOf(f, first, fec, a)[j] == s[j];
  }

  // ---------------------------------------------------------------------------------------
  // A block that is refused
  // ---------------------------------------------------------------------------------------

  /** All syndromes but the last vanish. */
  ghost predicate OnlyLast(s: Poly)
  {
    s != [] && s[|s| - 1] != 0 && forall j :: 0 <= j < |s| - 1 ==> s[j] == 0
  }

  /** The locator for such syndromes has as high a degree as there are syndromes. */
  lemma {:induction false} LongLocator(f: GF, s: Poly)
    requires OnlyLast(s) && Elems(f, s)
    ensures |Massey(f, s, |s|).lambda| == |s| + 1
  {
    hide Conv, Mul, Xor, Strip, Massey, NextRound;
    var n := |s| - 1;
    SilentRounds(f, s, n);
    MasseyStep(f, s, n);
    var r := Massey(f, s, n);
    ConvStep(f, [1], s, n);
    MulOne(f, s[n]);
    RoundWithDiscrepancy(f, r, s, n);
    var d := s[n];
    var scaled := Scale(f, d, r.prev);
    var t := Sum([1], scaled);
    MulOne(f, d);
    XorZero(d);
    assert At(t, n + 1) == Xor(At([1], n + 1), At(scaled, n + 1));
    assert At(scaled, n + 1) == Mul(f, d, At(r.prev, n + 1));
    StripKeeps(t);
  }

  lemma {:induction false} StripKeeps(s: Poly)
    requires s != [] && s[|s| - 1] != 0
    ensures Strip(s) == s
  {
  }

  lemma {:induction false} RefusedSyndromes(f: GF, first: nat, fec: nat, a: seq<int>)
    requires 0 < fec && first + fec <= Size(f) + 1 && OnlyLast(TraceOf(f, first, fec, a).syndromes)
    ensures !Accepted(fec, TraceOf(f, first, fec, a))
  {
    hide Eval, Alpha, Massey, RootsUpTo;
    var t := TraceOf(f, first, fec, a);
    SyndromeElems(f, first, a, t.syndromes);
    LongLocator(f, t.syndromes);
  }

  /** For every code there is a block, made of field elements, that the decoder refuses. */
  lemma {:induction false} RefusedBlock(f: GF, first: nat, fec: nat) returns (a: seq<int>)
    requires 0 < fec && first + fec <= Size(f)
    ensures |a| == Size(f) && Elems(f, a) && !Accepted(fec, TraceOf(f, first, fec, a))
  {
    hide Eval, Alpha, TraceOf, Accepted;
    var g := GeneratorExists(f, first, fec - 1);
    a := seq(Size(f), i => At(g, Size(f) - 1 - i));
    var s := SyndromesOf(f, first, fec, a);
    LoadsAs(f, a, g);
    forall j | 0 <= j < fec
      ensures s[j] == 0 <==> j < fec - 1
    {
      EvalSame(f, Load(f, a), g, Alpha(f, first + j));
    }
    SameSyndromes(f, first, fec, a, s);
    RefusedSyndromes(f, first, fec, a);
  }

  // ---------------------------------------------------------------------------------------
  // A file that is refused
  // ---------------------------------------------------------------------------------------

  lemma {:induction false} SameLoad(f: GF, first: nat, fec: nat, a: seq<int>, b: seq<int>)
    requires first + fec <= Size(f) + 1 && Load(f, a) == Load(f, b)
    ensures TraceOf(f, first, fec, a) == TraceOf(f, first, fec, b)
  {
    hide Eval, Alpha, Massey, RootsUpTo, Load;
    var s, t := SyndromesOf(f, first, fec, a), SyndromesOf(f, first, fec, b);
    assert forall j :: 0 <= j < fec ==> s[j] == t[j];
    assert s == t;
  }

  /** For every code on bytes there is a file of one block that is refused. */
  lemma {:induction false} DamagedFile(code: Code) returns (received: Bytes)
    requires ByteCode(code)
    ensures |received| == 255 && FileResult(code, received) == (ErrDecode, [])
  {
    hide Accepted, TraceOf, Symbol, CharOf, Valid;
    ByteCodeSize(code);
    var a := RefusedBlock(code.f, code.first, code.fec);
    received := seq(255, i requires 0 <= i < 255 => AsByte(code, a, i));
    var b := Loaded(code, received);
    forall i | 0 <= i < 255
      ensures Symbol(code.f, b[i]) == Symbol(code.f, a[i])
    {
      assert b[i] == CharOf(received[i]) && received[i] == a[i];
      SymbolOfChar(code.f, received[i]);
    }
    assert Load(code.f, b) == Load(code.f, a);
    SameLoad(code.f, code.first, code.fec, a, b);
    assert received[..255] == received;
  }

  ghost function AsByte(code: Code, a: seq<int>, i: nat): byte
    requires i < |a| && Elems(code.f, a) && Size(code.f) == 255
  {
    a[i]
  }
}
