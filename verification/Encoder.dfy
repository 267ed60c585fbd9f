/** Code blocks and the systematic encoder. */
module Encoder {
  import opened Bits
  import opened GaloisField
  import opened Polynomial
  import opened Roots
  import opened FieldPolynomial
  import opened Generator

  datatype BlockError =
    | NoError
    | EncoderError0
    | EncoderError1
    | DecoderError0
    | DecoderError1
    | DecoderError2
    | DecoderError3
    | DecoderError4

  /** A code block: the data symbols followed by the parity symbols, and the decoder's report.
  Symbols are machine integers; only their low bits belong to the code. */
  class Block {
    const fecLength: nat
    const data: array<int>
    var errorsDetected: nat
    var errorsCorrected: nat
    var zeroNumerators: nat
    var unrecoverable: bool
    var error: BlockError

    constructor (codeLength: nat, fecLength: nat)
      requires fecLength < codeLength
      ensures this.fecLength == fecLength && data.Length == codeLength && fresh(data)
      ensures errorsDetected == errorsCorrected == zeroNumerators == 0
      ensures !unrecoverable && error == NoError
    {
      this.fecLength := fecLength;
      data := new int[codeLength];
      errorsDetected := 0;
      errorsCorrected := 0;
      zeroNumerators := 0;
      unrecoverable := false;
      error := NoError;
    }
  }

  // ---------------------------------------------------------------------------------------
  // Codewords
  // ---------------------------------------------------------------------------------------

  /** The field element in the low bits of a machine integer, also of a negative one. */
  function Symbol(f: Field, v: int): (r: nat)
    ensures Elem(f, r)
    ensures Elem(f, v) ==> r == v
  {
    if 0 <= v < Pow2(f.power) then v else v % Pow2(f.power)
  }

  /** A block read as a polynomial: the first symbol is the highest coefficient. */
  function Load(f: Field, data: seq<int>): (r: Poly)
    ensures |r| == |data| && Elems(f, r)
    ensures forall j :: 0 <= j < |data| ==> r[j] == Symbol(f, data[|data| - 1 - j])
  {
    seq(|data|, j requires 0 <= j < |data| => Symbol(f, data[|data| - 1 - j]))
  }

  /** The block vanishes at `fec` consecutive powers of the primitive element. */
  ghost predicate Codeword(f: GF, first: nat, fec: nat, data: seq<int>) {
    && first + fec <= Size(f)
    && forall j :: first <= j < first + fec ==> Eval(f, Load(f, data), Alpha(f, j)) == 0
  }

  /** The parity of given data is unique: two codewords with the same data symbols are equal. */
  lemma {:induction false} ParityUnique(f: GF, first: nat, fec: nat, a: seq<int>, b: seq<int>)
    requires |a| == |b| && fec <= |a|
    requires Codeword(f, first, fec, a) && Codeword(f, first, fec, b)
    requires forall i :: 0 <= i < |a| - fec ==> Symbol(f, a[i]) == Symbol(f, b[i])
    ensures Load(f, a) == Load(f, b)
  {
    hide Xor, Mul, Eval, Alpha, Symbol;
    var u, v := Load(f, a), Load(f, b);
    var d := Sum(u, v);
    assert Elems(f, d) by {
      forall i | 0 <= i < |d|
        ensures Elem(f, d[i])
      {
        assert d[i] == At(d, i) == Xor(At(u, i), At(v, i));
        XorBound(At(u, i), At(v, i), f.power);
      }
    }
    // the difference has degree below fec, and fec roots
    var low := d[..fec];
    forall i: nat
      ensures At(d, i) == At(low, i)
    {
      assert At(d, i) == Xor(At(u, i), At(v, i));
      if fec <= i < |d| { XorSelf(u[i]); }
    }
    var rs: seq<nat> := seq(fec, j requires 0 <= j < fec => Alpha(f, first + j));
    forall j | 0 <= j < fec
      ensures Eval(f, low, rs[j]) == 0
    {
      EvalSame(f, d, low, rs[j]);
      EvalSum(f, u, v, rs[j]);
      assert rs[j] == Alpha(f, first + j);
      XorZero(0);
    }
    forall i, j | 0 <= i < j < |rs|
      ensures rs[i] != rs[j]
    {
      if rs[i] == rs[j] { AlphaInjective(f, first + i, first + j); }
    }
    if Nonzero(low) {
      RootBound(f, low, rs);
    }
    forall i | 0 <= i < |u|
      ensures u[i] == v[i]
    {
      assert At(d, i) == At(low, i) == 0 by {
        if i < fec { assert low[i] == 0; }
      }
      assert At(d, i) == Xor(At(u, i), At(v, i));
      XorZeroEqual(u[i], v[i]);
    }
  }

  // ---------------------------------------------------------------------------------------
  // The encoder
  // ---------------------------------------------------------------------------------------

  class Encoder {
    const f: GF
    const generator: Poly
    const valid: bool

    constructor (codeLength: nat, f: GF, generator: Poly)
      requires Elems(f, generator)
      ensures this.f == f && this.generator == generator && valid == (codeLength == Size(f))
    {
      this.valid := codeLength == Size(f);
      this.f := f;
      this.generator := generator;
    }

    /** The message polynomial: the data symbols above `fecLength` zero coefficients, and one more
    zero coefficient on top. */
    method MessagePoly(b: Block) returns (message: Poly)
      requires b.fecLength <= b.data.Length
      ensures |message| == b.data.Length + 1 && Elems(f, message)
      ensures forall j :: 0 <= j < |message| ==>
                message[j] == if b.fecLength <= j < b.data.Length
                              then Symbol(f, b.data[b.data.Length - 1 - j]) else 0
    {
      var n := b.data.Length;
      message := Zeros(n + 1);
      var i := b.fecLength;
      while i < n
        invariant b.fecLength <= i <= n && |message| == n + 1 && Elems(f, message)
        invariant forall j :: 0 <= j <= n ==>
                    message[j] == if b.fecLength <= j < i then Symbol(f, b.data[n - 1 - j]) else 0
      {
        message := message[i := Symbol(f, b.data[n - 1 - i])];
        i := i + 1;
      }
    }

    /** Fills in the parity symbols. With a generator of the right degree every block becomes a
    codeword whose data symbols are untouched. */
    method Encode(b: Block) returns (ok: bool)
      requires 0 < b.fecLength < b.data.Length && |generator| != 1 && Elems(f, generator)
      modifies b, b.data
      ensures valid && |generator| == b.fecLength + 1 <==> ok
      ensures !ok ==> b.data[..] == old(b.data[..]) && b.error == if valid then EncoderError1 else EncoderError0
      ensures ok ==> b.error == old(b.error)
      ensures b.errorsDetected == old(b.errorsDetected) && b.errorsCorrected == old(b.errorsCorrected)
      ensures b.zeroNumerators == old(b.zeroNumerators) && b.unrecoverable == old(b.unrecoverable)
      ensures forall i :: 0 <= i < b.data.Length - b.fecLength ==> b.data[i] == old(b.data[i])
      ensures ok ==> forall i :: b.data.Length - b.fecLength <= i < b.data.Length ==> Elem(f, b.data[i])
      ensures ok ==> CodewordOf(f, generator, b.fecLength, b.data[..])
    {
      hide CodewordOf, Load, DividedBy;
      if !valid {
        b.error := EncoderError0;
        return false;
      }
      var n, fec := b.data.Length, b.fecLength;
      var message := MessagePoly(b);
      var remainder := new FieldPolynomial(f, message);
      ghost var q := remainder.ModAssign(generator);
      var parities := remainder.poly;
      if remainder.Degree() == fec - 1 {
        ghost var before := b.data[..];
        var i := 0;
        while i < fec
          invariant 0 <= i <= fec
          invariant forall k :: 0 <= k < n - fec ==> b.data[k] == before[k]
          invariant forall k :: n - fec <= k < n - fec + i ==> b.data[k] == parities[n - 1 - k]
          modifies b.data
        {
          b.data[n - fec + i] := Symbol(f, parities[fec - 1 - i]);
          i := i + 1;
        }
        if |generator| == fec + 1 {
          EncodedCodeword(f, generator, fec, before, b.data[..], message, q, parities);
        }
      } else {
        b.error := EncoderError1;
        return false;
      }
      return true;
    }
  }

  ghost predicate CodewordOf(f: GF, g: Poly, fec: nat, data: seq<int>) {
    forall first: nat, c: nat :: first + fec <= Size(f) && IsGenerator(f, g, first, fec, c) ==>
      Codeword(f, first, fec, data)
  }

  lemma {:induction false} EncodedCodeword(f: GF, g: Poly, fec: nat, before: seq<int>, after: seq<int>,
      message: Poly, q: Poly, r: Poly)
    requires |g| == fec + 1 && fec < |before| == |after| == |message| - 1 && |r| == fec && Elems(f, r)
    requires g[fec] != 0 ==> DividedBy(f, message, g, q, r)
    requires forall j :: 0 <= j < |message| ==>
               message[j] == if fec <= j < |before| then Symbol(f, before[|before| - 1 - j]) else 0
    requires forall k :: 0 <= k < |before| - fec ==> after[k] == before[k]
    requires forall k :: |after| - fec <= k < |after| ==> after[k] == r[|after| - 1 - k]
    ensures CodewordOf(f, g, fec, after)
  {
    hide DividedBy, Symbol, Codeword, Load, Eval, Alpha;
    forall first: nat, c: nat | first + fec <= Size(f) && IsGenerator(f, g, first, fec, c)
      ensures Codeword(f, first, fec, after)
    {
      ParityMakesCodeword(f, g, first, c, fec, after, message, q, r);
    }
  }

  /** Data and remainder together are a multiple of the generator. */
  lemma {:induction false} ParityMakesCodeword(f: GF, g: Poly, first: nat, c: nat, fec: nat,
      data: seq<int>, message: Poly, q: Poly, r: Poly)
    requires IsGenerator(f, g, first, fec, c) && first + fec <= Size(f)
    requires fec < |data| == |message| - 1 && |r| == fec && Elems(f, r)
    requires DividedBy(f, message, g, q, r)
    requires forall j :: 0 <= j < |message| ==>
               message[j] == if fec <= j < |data| then Symbol(f, data[|data| - 1 - j]) else 0
    requires forall k :: |data| - fec <= k < |data| ==> data[k] == r[|data| - 1 - k]
    ensures Codeword(f, first, fec, data)
  {
    hide Xor, Mul, Eval, Conv, Alpha, Symbol;
    var n, w := |data|, Load(f, data);
    forall m: nat
      ensures At(w, m) == Conv(f, q, g, m)
    {
      var t := Conv(f, q, g, m);
      assert At(message, m) == Xor(t, At(r, m));
      if m < fec {
        assert data[n - 1 - m] == r[m];
        XorZeroEqual(t, r[m]);
      } else {
        XorZero(t);
      }
    }
    forall j | first <= j < first + fec
      ensures Eval(f, w, Alpha(f, j)) == 0
    {
      var x := Alpha(f, j);
      EvalConv(f, q, g, w, x);
      assert Eval(f, g, x) == 0;
      MulZero(f, Eval(f, q, x));
    }
  }
}
