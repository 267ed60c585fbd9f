/** The code that the file system puts on its medium: what the encoded bytes are, and how many changes
they stand. */
module Medium {
  import opened ByteString
  import opened FileCodec
  import GaloisField
  import FieldTables
  import FieldPolynomial
  import Polynomial
  import Generator
  import Encoder
  import Correction
  import Decoder
  import WofsField
  import Bits

  const GEN_POLY_INDEX := 120
  const FEC_LENGTH := 32
  const CODE_LENGTH := 255

  // ---------------------------------------------------------------------------------------
  // The code of the file system
  // ---------------------------------------------------------------------------------------

  /** The code with 32 parity bytes per 255, over the field that the tables for the fixed primitive
  polynomial define. */
  ghost predicate WofsCode(code: Code)
  {
    && code.first == GEN_POLY_INDEX && code.fec == FEC_LENGTH
    && code.f.power == 8 && GaloisField.Valid(code.f)
    && FieldTables.Filled(8, WofsField.PRIMITIVE_POLYNOMIAL06, code.f.alphaTo)
  }

  lemma {:induction false} WofsIsByteCode(code: Code)
    requires WofsCode(code)
    ensures ByteCode(code) && GaloisField.Size(code.f) == 255
  {
    ByteCodeSize(code);
  }

  /** Mastering and mounting build their tables separately, and get the same code. */
  lemma {:induction false} WofsCodeUnique(c: Code, d: Code)
    requires WofsCode(c) && WofsCode(d)
    ensures c == d
  {
    SameAntilogs(c.f.alphaTo, d.f.alphaTo);
    SameLogs(c.f, d.f);
  }

  lemma {:induction false} SameAntilogs(a: seq<nat>, b: seq<nat>)
    requires FieldTables.Filled(8, WofsField.PRIMITIVE_POLYNOMIAL06, a)
    requires FieldTables.Filled(8, WofsField.PRIMITIVE_POLYNOMIAL06, b)
    ensures a == b
  {
    hide FieldTables.Power;
    assert forall i :: 0 <= i < |a| ==> a[i] == b[i];
  }

  lemma {:induction false} SameLogs(f: GaloisField.Field, g: GaloisField.Field)
    requires GaloisField.LogsInvert(f) && GaloisField.LogsInvert(g)
    requires f.power == g.power && f.alphaTo == g.alphaTo
    ensures f.indexOf == g.indexOf
  {
    hide Bits.Pow2;
    forall a | 0 <= a < |f.indexOf|
      ensures f.indexOf[a] == g.indexOf[a]
    {
      if a > 0 {
        assert f.alphaTo[f.indexOf[a]] == a;
        assert g.indexOf[g.alphaTo[f.indexOf[a]]] == f.indexOf[a];
      }
    }
  }

  method MakeField() returns (f: GaloisField.Field)
    ensures f.power == 8 && GaloisField.Valid(f) && FieldTables.Filled(8, WofsField.PRIMITIVE_POLYNOMIAL06, f.alphaTo)
  {
    hide FieldTables.Filled, FieldTables.Primitive, GaloisField.Valid;
    WofsField.FieldPolynomialIsPrimitive();
    f := FieldTables.GenerateField(WofsField.FIELD_DESCRIPTOR, WofsField.PRIMITIVE_POLYNOMIAL06);
  }

  /** Encodes the hashed image with the code of the file system. */
  method AddReedSolomon(image: Bytes) returns (sent: Bytes, ghost code: Code)
    ensures WofsCode(code) && ByteCode(code) && Encodes(code, image, sent)
    ensures WofsEncoding(code.f, image, sent)
  {
    hide FieldTables.Filled, GaloisField.Valid, Encodes, Generator.IsGenerator, WofsEncoding;
    var f := MakeField();
    code := Code(f, GEN_POLY_INDEX, FEC_LENGTH);
    WofsIsByteCode(code);
    var generator := new FieldPolynomial.FieldPolynomial(f, []);
    var made := Generator.MakeSequentialRootGenerator(f, GEN_POLY_INDEX, FEC_LENGTH, generator);
    assert made;
    var encoder := new Encoder.Encoder(CODE_LENGTH, f, generator.poly);
    var files := new FileEncoder(encoder, FEC_LENGTH, code);
    sent := files.EncodeFile(image);
    EncodedBytes(code, image, sent);
  }

  /** Decodes what was read from the medium. */
  method DecodeMedium(received: Bytes) returns (status: Status, output: Bytes, ghost code: Code)
    ensures WofsCode(code) && ByteCode(code)
    ensures received == [] ==> status == ZeroSize && output == []
    ensures received != [] ==> (status, output) == FileResult(code, received)
  {
    hide FieldTables.Filled, GaloisField.Valid, FileResult, Detected, Corrected;
    var f := MakeField();
    code := Code(f, GEN_POLY_INDEX, FEC_LENGTH);
    WofsIsByteCode(code);
    var decoder := new Decoder.Decoder(CODE_LENGTH, FEC_LENGTH, f, GEN_POLY_INDEX);
    var files := new FileDecoder(decoder, code);
    status, output := files.DecodeFile(received);
  }

  // ---------------------------------------------------------------------------------------
  // The encoded bytes
  // ---------------------------------------------------------------------------------------

  function Least(a: int, b: int): int
  {
    if a < b then a else b
  }

  /** The `k`-th block on the medium, with `d` data bytes, as a block of 255 symbols: the data, zeros in
  place of what is missing, and 32 parity bytes. */
  function PaddedBlock(sent: Bytes, k: nat, d: nat): (r: Bytes)
    requires d <= 223 && 255 * k + d + 32 <= |sent|
    ensures |r| == 255
  {
    sent[255 * k..255 * k + d] + Fill(0, 223 - d) + sent[255 * k + d..255 * k + d + 32]
  }

  /** Every 223 bytes of the image are followed by 32 parity bytes, so that the block, read as a
  polynomial, vanishes at the powers 120 to 151 of the primitive element. */
  ghost predicate WofsEncoding(f: GaloisField.GF, image: Bytes, sent: Bytes)
  {
    && GaloisField.Size(f) == 255
    && |sent| == |image| + 32 * ((|image| + 222) / 223)
    && forall k :: 0 <= k && 223 * k < |image| ==> BlockEncoded(f, image, sent, k)
  }

  ghost predicate BlockEncoded(f: GaloisField.GF, image: Bytes, sent: Bytes, k: nat)
    requires 223 * k < |image| && GaloisField.Size(f) == 255
  {
    var d := Least(223, |image| - 223 * k);
    && 255 * k + d + 32 <= |sent|
    && sent[255 * k..255 * k + d] == image[223 * k..223 * k + d]
    && forall j :: 120 <= j <= 151 ==>
         Polynomial.Eval(f, Encoder.Load(f, PaddedBlock(sent, k, d)), GaloisField.Alpha(f, j)) == 0
  }

  lemma {:induction false} EncodedLength(code: Code, image: Bytes, sent: Bytes)
    requires WofsCode(code) && ByteCode(code) && Encodes(code, image, sent)
    ensures |sent| == |image| + 32 * ((|image| + 222) / 223)
    decreases |image|
  {
    hide CodedChunk, WofsCode;
    FecIs(code);
    if |image| > 223 {
      EncodedLength(code, image[223..], sent[255..]);
    } else if image != [] {
      assert image[|image|..] == [];
    }
  }

  lemma {:induction false} FecIs(code: Code)
    requires WofsCode(code)
    ensures code.fec == 32 && code.first == 120
  {
    hide FieldTables.Filled, GaloisField.Valid;
  }

  lemma {:induction false} EncodedBlock(code: Code, image: Bytes, sent: Bytes, k: nat)
    requires WofsCode(code) && ByteCode(code) && GaloisField.Size(code.f) == 255 && Encodes(code, image, sent) && 223 * k < |image|
    ensures BlockEncoded(code.f, image, sent, k)
    decreases k
  {
    hide WofsCode, Polynomial.Eval, GaloisField.Alpha, Encoder.Load, GaloisField.Valid;
    FecIs(code);
    if k == 0 {
      hide Encodes;
      FirstBlock(code, image, sent);
    } else {
      hide CodedChunk;
      assert 223 <= |image|;
      EncodedBlock(code, image[223..], sent[255..], k - 1);
      LaterBlock(code.f, image, sent, k);
    }
  }

  lemma {:induction false} LaterBlock(f: GaloisField.GF, image: Bytes, sent: Bytes, k: nat)
    requires GaloisField.Size(f) == 255 && k > 0 && 223 * k < |image| && |sent| >= 255
    requires BlockEncoded(f, image[223..], sent[255..], k - 1)
    ensures BlockEncoded(f, image, sent, k)
  {
    hide Polynomial.Eval, GaloisField.Alpha, Encoder.Load;
    var d := Least(223, |image| - 223 * k);
    assert sent[255..][255 * (k - 1)..255 * (k - 1) + d] == sent[255 * k..255 * k + d];
    assert image[223..][223 * (k - 1)..223 * (k - 1) + d] == image[223 * k..223 * k + d];
    assert PaddedBlock(sent[255..], k - 1, d) == PaddedBlock(sent, k, d);
  }

  lemma {:induction false} FirstBlock(code: Code, image: Bytes, sent: Bytes)
    requires ByteCode(code) && code.fec == 32 && code.first == 120 && GaloisField.Size(code.f) == 255
    requires Encodes(code, image, sent) && image != []
    ensures BlockEncoded(code.f, image, sent, 0)
  {
    hide Polynomial.Eval, GaloisField.Alpha, Encoder.Load, ByteCode;
    var d := Least(223, |image|);
    assert sent[..d] == image[..d];
    var chunk := sent[..d + 32];
    assert BlockOf(chunk, 32) == PaddedBlock(sent, 0, d);
  }

  /** What the encoder makes of an image, byte by byte. */
  lemma {:induction false} EncodedBytes(code: Code, image: Bytes, sent: Bytes)
    requires WofsCode(code) && ByteCode(code) && Encodes(code, image, sent)
    ensures WofsEncoding(code.f, image, sent)
  {
    hide WofsCode, Encodes, BlockEncoded, ByteCode;
    WofsIsByteCode(code);
    EncodedLength(code, image, sent);
    forall k | 0 <= k && 223 * k < |image|
      ensures BlockEncoded(code.f, image, sent, k)
    {
      EncodedBlock(code, image, sent, k);
    }
  }

  // ---------------------------------------------------------------------------------------
  // What the medium stands
  // ---------------------------------------------------------------------------------------

  /** How many bytes differ. */
  function Changed(a: Bytes, b: Bytes): nat
    requires |a| == |b|
  {
    if a == [] then 0 else Changed(a[1..], b[1..]) + if a[0] != b[0] then 1 else 0
  }

  lemma {:induction false} DistanceIsChanged(f: GaloisField.Field, a: Bytes, b: Bytes)
    requires |a| == |b| && Bits.Pow2(f.power) == 256
    ensures Correction.Distance(f, a, b) == Changed(a, b)
    decreases |a|
  {
    hide Encoder.Symbol;
    if a != [] {
      SymbolOfChar(f, a[0]);
      SymbolOfChar(f, b[0]);
      DistanceIsChanged(f, a[1..], b[1..]);
    }
  }

  /** At most sixteen bytes of each run of 255 bytes have changed. */
  ghost predicate SixteenPerBlock(sent: Bytes, received: Bytes)
  {
    && |sent| == |received|
    && forall k :: 0 <= k && 255 * k < |sent| ==> RunChanges(sent, received, k) <= 16
  }

  /** The changes in the `k`-th run of 255 bytes. */
  function RunChanges(sent: Bytes, received: Bytes, k: nat): nat
    requires |sent| == |received| && 255 * k < |sent|
  {
    var end := Least(255 * k + 255, |sent|);
    Changed(received[255 * k..end], sent[255 * k..end])
  }

  lemma {:induction false} RunTail(sent: Bytes, received: Bytes, k: nat)
    requires |sent| == |received| && 255 * (k + 1) < |sent|
    ensures RunChanges(sent, received, k + 1) == RunChanges(sent[255..], received[255..], k)
  {
    hide Changed;
    var end := Least(255 * k + 510, |sent|);
    assert sent[255..][255 * k..end - 255] == sent[255 * (k + 1)..end];
    assert received[255..][255 * k..end - 255] == received[255 * (k + 1)..end];
  }

  lemma {:induction false} SixteenStep(sent: Bytes, received: Bytes)
    requires |sent| == |received| && sent != []
    ensures var c := Least(255, |sent|);
            SixteenPerBlock(sent, received) <==>
            Changed(received[..c], sent[..c]) <= 16 && SixteenPerBlock(sent[c..], received[c..])
  {
    hide Changed, RunChanges;
    var c := Least(255, |sent|);
    FirstRun(sent, received);
    if SixteenPerBlock(sent, received) {
      forall k | 0 <= k && 255 * k < |sent[c..]|
        ensures RunChanges(sent[c..], received[c..], k) <= 16
      {
        RunTail(sent, received, k);
        assert RunChanges(sent, received, k + 1) <= 16;
      }
    }
    if SixteenPerBlock(sent[c..], received[c..]) && Changed(received[..c], sent[..c]) <= 16 {
      forall k | 0 <= k && 255 * k < |sent|
        ensures RunChanges(sent, received, k) <= 16
      {
        if k > 0 {
          RunTail(sent, received, k - 1);
        }
      }
    }
  }

  lemma {:induction false} FirstRun(sent: Bytes, received: Bytes)
    requires |sent| == |received| && sent != []
    ensures var c := Least(255, |sent|); RunChanges(sent, received, 0) == Changed(received[..c], sent[..c])
  {
    hide Changed;
  }

  /** The correction radius of the code is sixteen bytes in each run of 255. */
  lemma {:induction false} NearIffSixteen(code: Code, sent: Bytes, received: Bytes)
    requires WofsCode(code) && ByteCode(code)
    ensures Near(code, sent, received) <==> SixteenPerBlock(sent, received)
    decreases |sent|
  {
    hide WofsCode, Correction.Distance, Changed, SixteenPerBlock, ByteCode;
    FecIs(code);
    ByteCodeSize(code);
    if |sent| == |received| && sent != [] {
      var c := Least(255, |sent|);
      SixteenStep(sent, received);
      DistanceIsChanged(code.f, received[..c], sent[..c]);
      NearIffSixteen(code, sent[c..], received[c..]);
    } else {
      NothingChanged(sent, received);
    }
  }

  lemma {:induction false} NothingChanged(sent: Bytes, received: Bytes)
    requires |sent| != |received| || sent == []
    ensures SixteenPerBlock(sent, received) <==> |sent| == |received|
  {
  }

  /** Whatever happens to at most sixteen bytes of each run of 255 bytes on the medium, decoding gives
  back the image. */
  lemma {:induction false} MediumRecovered(code: Code, image: Bytes, sent: Bytes, received: Bytes)
    requires WofsCode(code) && ByteCode(code) && Encodes(code, image, sent) && SixteenPerBlock(sent, received)
    ensures FileResult(code, received) == (Success, image) && (received == [] <==> image == [])
  {
    hide WofsCode, Encodes, Near, SixteenPerBlock, FileResult, ByteCode;
    NearIffSixteen(code, sent, received);
    CorruptedFileRecovered(code, image, sent, received);
  }
}
