/** The file encoder, which cuts a file into blocks and appends parity to each, and the file
decoder, which takes the blocks apart again. */
module FileCodec {
  import opened Bits
  import opened GaloisField
  import opened Polynomial
  import opened Generator
  import opened Encoder
  import opened Correction
  import opened Forney
  import opened Outcome
  import opened Decoder
  import opened ByteString

  /** A byte read into a `char`, which is signed. */
  function CharOf(b: byte): int {
    if b >= 128 then b - 256 else b
  }

  /** The byte that an integer leaves when it is cast to `char` and written. */
  function ByteOf(v: int): byte {
    v % 256
  }

  datatype Status = Success | ZeroSize | ErrDecode

  /** The parameters of a code on bytes. */
  datatype Code = Code(f: Field, first: nat, fec: nat)

  ghost predicate ByteCode(code: Code) {
    && Valid(code.f) && code.f.power == 8
    && 0 < code.fec < 255 && code.first + code.fec <= 255
  }

  lemma {:induction false} ByteCodeSize(code: Code)
    requires ByteCode(code)
    ensures Size(code.f) == 255 && Pow2(code.f.power) == 256
  {
    assert Pow2(8) == 256;
  }

  // ---------------------------------------------------------------------------------------
  // Chunks and blocks
  // ---------------------------------------------------------------------------------------

  /** A chunk of data and parity as a full block: the data is padded with zeros. */
  ghost function BlockOf(chunk: seq<int>, fec: nat): (r: seq<int>)
    requires fec < |chunk| <= 255
    ensures |r| == 255
    ensures forall i :: 0 <= i < 255 ==>
              r[i] == if i < |chunk| - fec then chunk[i] else if i < 255 - fec then 0 else chunk[i - (255 - |chunk|)]
  {
    chunk[..|chunk| - fec] + seq(255 - |chunk|, i => 0) + chunk[|chunk| - fec..]
  }

  /** A chunk whose last `fec` bytes are the parity of the others. */
  ghost predicate CodedChunk(code: Code, chunk: Bytes)
    requires ByteCode(code)
  {
    code.fec < |chunk| <= 255 && Codeword(code.f, code.first, code.fec, BlockOf(chunk, code.fec))
  }

  function Min(a: nat, b: nat): nat {
    if a < b then a else b
  }

  /** `output` is `input` cut into pieces, each followed by its parity. */
  ghost predicate Encodes(code: Code, input: Bytes, output: Bytes)
    requires ByteCode(code)
    decreases |input|
  {
    if input == [] then output == []
    else
      var k := Min(255 - code.fec, |input|);
      && k + code.fec <= |output|
      && output[..k] == input[..k]
      && CodedChunk(code, output[..k + code.fec])
      && Encodes(code, input[k..], output[k + code.fec..])
  }

  /** In every block, `received` differs from `sent` in at most half as many bytes as there are
  parity bytes. */
  ghost predicate Near(code: Code, sent: Bytes, received: Bytes)
    requires ByteCode(code)
    decreases |sent|
  {
    && |sent| == |received|
    && (sent == [] ||
        var k := Min(255, |sent|);
        && 2 * Distance(code.f, received[..k], sent[..k]) <= code.fec
        && Near(code, sent[k..], received[k..]))
  }

  /** Every block of the file is coded. */
  ghost predicate CodedFile(code: Code, sent: Bytes)
    requires ByteCode(code)
    decreases |sent|
  {
    sent == [] ||
    var k := Min(255, |sent|);
    CodedChunk(code, sent[..k]) && CodedFile(code, sent[k..])
  }

  // ---------------------------------------------------------------------------------------
  // The round trip
  // ---------------------------------------------------------------------------------------

  /** The blocks into which the decoder cuts a file are those that the encoder made. */
  lemma {:induction false} SameBlocks(code: Code, input: Bytes, output: Bytes)
    requires ByteCode(code) && Encodes(code, input, output) && input != []
    ensures Min(255, |output|) == Min(255 - code.fec, |input|) + code.fec
  {
    var k := Min(255 - code.fec, |input|);
    if |input| <= 255 - code.fec {
      assert input[k..] == [];
      assert output[k + code.fec..] == [];
    }
  }

  lemma {:induction false} EncodedIsCoded(code: Code, input: Bytes, output: Bytes)
    requires ByteCode(code) && Encodes(code, input, output)
    ensures CodedFile(code, output)
    decreases |input|
  {
    hide CodedChunk;
    if input != [] {
      var k := Min(255 - code.fec, |input|);
      SameBlocks(code, input, output);
      EncodedIsCoded(code, input[k..], output[k + code.fec..]);
    }
  }

  // ---------------------------------------------------------------------------------------
  // Distances between chunks and between blocks
  // ---------------------------------------------------------------------------------------

  lemma {:induction false} DistanceAppend(f: Field, a: seq<int>, b: seq<int>, x: seq<int>, y: seq<int>)
    requires |a| == |b| && |x| == |y|
    ensures Distance(f, a + x, b + y) == Distance(f, a, b) + Distance(f, x, y)
    decreases |a|
  {
    hide Symbol;
    if a == [] {
      assert a + x == x && b + y == y;
    } else {
      DistanceAppend(f, a[1..], b[1..], x, y);
      assert (a + x)[1..] == a[1..] + x && (b + y)[1..] == b[1..] + y;
    }
  }

  lemma {:induction false} DistanceSame(f: Field, a: seq<int>, a': seq<int>, b: seq<int>)
    requires |a| == |a'| == |b|
    requires forall i :: 0 <= i < |a| ==> Symbol(f, a[i]) == Symbol(f, a'[i])
    ensures Distance(f, a, b) == Distance(f, a', b)
    decreases |a|
  {
    hide Symbol;
    if a != [] {
      DistanceSame(f, a[1..], a'[1..], b[1..]);
    }
  }

  /** Padding does not change the distance. */
  lemma {:induction false} BlockDistance(f: Field, a: seq<int>, b: seq<int>, fec: nat)
    requires fec < |a| == |b| <= 255
    ensures Distance(f, BlockOf(a, fec), BlockOf(b, fec)) == Distance(f, a, b)
  {
    hide Symbol;
    var k, z := |a| - fec, seq(255 - |a|, i => 0);
    DistanceSelf(f, z);
    DistanceAppend(f, a[..k], b[..k], z, z);
    DistanceAppend(f, a[..k] + z, b[..k] + z, a[k..], b[k..]);
    DistanceAppend(f, a[..k], b[..k], a[k..], b[k..]);
    assert a[..k] + a[k..] == a && b[..k] + b[k..] == b;
  }

  lemma {:induction false} DistanceSelf(f: Field, a: seq<int>)
    ensures Distance(f, a, a) == 0
    decreases |a|
  {
    hide Symbol;
    if a != [] {
      DistanceSelf(f, a[1..]);
    }
  }

  ghost function Chars(chunk: Bytes): (r: seq<int>)
    ensures |r| == |chunk| && forall i :: 0 <= i < |chunk| ==> r[i] == CharOf(chunk[i])
  {
    seq(|chunk|, i requires 0 <= i < |chunk| => CharOf(chunk[i]))
  }

  /** Sign extension of bytes above 127 does not reach the code. */
  lemma {:induction false} SymbolOfChar(f: Field, b: byte)
    requires Pow2(f.power) == 256
    ensures Symbol(f, CharOf(b)) == b == Symbol(f, b)
    ensures forall v: int :: ByteOf(v) == Symbol(f, v)
  {
  }

  /** A coded chunk within reach of a received one is a codeword within reach of its block. */
  lemma {:induction false} ChunkCorrectable(code: Code, chunk: Bytes, clean: Bytes)
    requires ByteCode(code) && |clean| == |chunk| && CodedChunk(code, clean)
    requires 2 * Distance(code.f, chunk, clean) <= code.fec
    ensures Correctable(code.f, code.first, code.fec, BlockOf(Chars(chunk), code.fec), BlockOf(clean, code.fec))
    ensures Distance(code.f, BlockOf(Chars(chunk), code.fec), BlockOf(clean, code.fec)) == Distance(code.f, chunk, clean)
  {
    hide Distance, Codeword, Symbol, CharOf;
    ByteCodeSize(code);
    BlockDistance(code.f, Chars(chunk), clean, code.fec);
    forall i | 0 <= i < |chunk|
      ensures Symbol(code.f, Chars(chunk)[i]) == Symbol(code.f, chunk[i])
    {
      SymbolOfChar(code.f, chunk[i]);
    }
    DistanceSame(code.f, Chars(chunk), chunk, clean);
  }

  /** The data bytes of a block. */
  ghost function DataBytes(block: seq<int>, k: nat): (r: Bytes)
    requires k <= |block|
    ensures |r| == k && forall i :: 0 <= i < k ==> r[i] == ByteOf(block[i])
  {
    seq(k, i requires 0 <= i < k => ByteOf(block[i]))
  }

  lemma {:induction false} BlockRestored(code: Code, chunk: Bytes, after: seq<int>, clean: Bytes)
    requires ByteCode(code) && CodedChunk(code, clean) && |clean| == |chunk| && |after| == 255
    requires Restores(code.f, BlockOf(Chars(chunk), code.fec), after, BlockOf(clean, code.fec))
    ensures DataBytes(after, |chunk| - code.fec) == clean[..|chunk| - code.fec]
  {
    hide Distance, Codeword, Symbol, CharOf, ByteOf;
    ByteCodeSize(code);
    var k := |chunk| - code.fec;
    forall i | 0 <= i < k
      ensures DataBytes(after, k)[i] == clean[i]
    {
      SymbolOfChar(code.f, clean[i]);
      assert Symbol(code.f, after[i]) == Symbol(code.f, BlockOf(clean, code.fec)[i]);
    }
  }

  lemma {:induction false} CodedChunkSize(code: Code, chunk: Bytes)
    requires ByteCode(code) && CodedChunk(code, chunk)
    ensures code.fec < |chunk| <= 255
  {
  }

  // ---------------------------------------------------------------------------------------
  // The decoder as a function of the received bytes
  // ---------------------------------------------------------------------------------------

  /** The block that a received chunk is loaded into. */
  ghost function Loaded(code: Code, chunk: Bytes): (r: seq<int>)
    requires code.fec < |chunk| <= 255
    ensures |r| == 255
  {
    BlockOf(Chars(chunk), code.fec)
  }

  ghost function ChunkTrace(code: Code, chunk: Bytes): Trace
    requires ByteCode(code) && code.fec < |chunk| <= 255
  {
    ByteCodeSize(code);
    TraceOf(code.f, code.first, code.fec, Loaded(code, chunk))
  }

  /** A chunk that the decoder accepts: it is longer than the parity, and its syndromes vanish or have a
  locator with as many roots as its degree and not too many. */
  ghost predicate Accepts(code: Code, chunk: Bytes)
    requires ByteCode(code)
  {
    code.fec < |chunk| <= 255 && Accepted(code.fec, ChunkTrace(code, chunk))
  }

  /** The data of the block that the decoder makes of a chunk. */
  ghost function DataOf(code: Code, chunk: Bytes): (data: Bytes)
    requires ByteCode(code) && code.fec < |chunk| <= 255
    ensures |data| == |chunk| - code.fec
  {
    ByteCodeSize(code);
    DataBytes(CorrectedBlock(code.f, code.first, code.fec, Loaded(code, chunk)), |chunk| - code.fec)
  }

  /** What a decoded block says about the chunk it was loaded from. */
  lemma {:induction false} ChunkExplained(code: Code, chunk: Bytes, after: seq<int>, ok: bool)
    requires ByteCode(code) && code.fec < |chunk| <= 255
    requires Explains(code.f, code.first, code.fec, Loaded(code, chunk), after, ok)
    ensures ok <==> Accepts(code, chunk)
    ensures ok ==> |after| == 255 && DataBytes(after, |chunk| - code.fec) == DataOf(code, chunk)
    ensures ok ==> Distance(code.f, Loaded(code, chunk), after) == Changes(code, chunk)
  {
    hide TraceOf, CorrectedBlock, Accepted, Loaded, Distance;
    ByteCodeSize(code);
  }

  /** Block after block until one is refused, with the data of those before it. */
  ghost function FileResult(code: Code, received: Bytes): (Status, Bytes)
    requires ByteCode(code)
    decreases |received|
  {
    if received == [] then (Success, [])
    else
      var k := Min(255, |received|);
      if !Accepts(code, received[..k]) then (ErrDecode, [])
      else
        var rest := FileResult(code, received[k..]);
        (rest.0, DataOf(code, received[..k]) + rest.1)
  }

  lemma {:induction false} ResultStep(code: Code, received: Bytes)
    requires ByteCode(code) && received != []
    ensures var chunk := received[..Min(255, |received|)];
            if !Accepts(code, chunk) then FileResult(code, received) == (ErrDecode, [])
            else
              && code.fec < |chunk| <= 255
              && var rest := FileResult(code, received[|chunk|..]);
                 FileResult(code, received) == (rest.0, DataOf(code, chunk) + rest.1)
  {
    hide Accepted, ChunkTrace, DataOf;
  }

  /** The locations found in all complete blocks up to the first that is refused. */
  ghost function Detected(code: Code, received: Bytes): nat
    requires ByteCode(code)
    decreases |received|
  {
    if |received| < 255 then 0
    else |ChunkTrace(code, received[..255]).roots| + if Accepts(code, received[..255]) then Detected(code, received[255..]) else 0
  }

  /** How many symbols of a block the decoder changes. */
  ghost function Changes(code: Code, chunk: Bytes): nat
    requires ByteCode(code) && code.fec < |chunk| <= 255
  {
    ByteCodeSize(code);
    Distance(code.f, Loaded(code, chunk), CorrectedBlock(code.f, code.first, code.fec, Loaded(code, chunk)))
  }

  /** The symbols changed in all complete blocks. */
  ghost function Corrected(code: Code, received: Bytes): nat
    requires ByteCode(code)
    decreases |received|
  {
    if |received| < 255 then 0 else Changes(code, received[..255]) + Corrected(code, received[255..])
  }

  lemma {:induction false} CorrectedStep(code: Code, received: Bytes)
    requires ByteCode(code)
    ensures |received| < 255 ==> Corrected(code, received) == 0
    ensures |received| >= 255 ==> Corrected(code, received) == Changes(code, received[..255]) + Corrected(code, received[255..])
  {
    hide Changes;
  }

  lemma {:induction false} DetectedStep(code: Code, received: Bytes)
    requires ByteCode(code)
    ensures |received| < 255 ==> Detected(code, received) == 0
    ensures |received| >= 255 ==>
              Detected(code, received) == |ChunkTrace(code, received[..255]).roots| +
                                          if Accepts(code, received[..255]) then Detected(code, received[255..]) else 0
  {
    hide Accepts, ChunkTrace;
  }

  /** The run of bytes that the decoder takes for its `k`-th block. */
  function BlockAt(received: Bytes, k: nat): Bytes
    requires 255 * k < |received|
  {
    received[255 * k..255 * k + Min(255, |received| - 255 * k)]
  }

  lemma {:induction false} BlockAtTail(received: Bytes, k: nat)
    requires 255 * (k + 1) < |received|
    ensures BlockAt(received, k + 1) == BlockAt(received[255..], k)
  {
  }

  ghost predicate AllAccepted(code: Code, received: Bytes)
    requires ByteCode(code)
  {
    forall k :: 0 <= k && 255 * k < |received| ==> Accepts(code, BlockAt(received, k))
  }

  /** A file is decoded exactly if every one of its blocks is accepted. */
  lemma {:induction false} DecodedIff(code: Code, received: Bytes)
    requires ByteCode(code)
    ensures FileResult(code, received).0 == Success <==> AllAccepted(code, received)
    ensures FileResult(code, received).0 == Success || FileResult(code, received).0 == ErrDecode
    decreases |received|
  {
    hide Accepts, DataOf, FileResult;
    if received == [] {
      NothingDecoded(code);
    } else {
      var n := Min(255, |received|);
      ResultStep(code, received);
      assert BlockAt(received, 0) == received[..n];
      if Accepts(code, received[..n]) {
        DecodedIff(code, received[n..]);
        AllAcceptedStep(code, received);
      }
    }
  }

  lemma {:induction false} NothingDecoded(code: Code)
    requires ByteCode(code)
    ensures FileResult(code, []) == (Success, [])
  {
  }

  lemma {:induction false} AllAcceptedStep(code: Code, received: Bytes)
    requires ByteCode(code) && received != [] && Accepts(code, received[..Min(255, |received|)])
    ensures AllAccepted(code, received) <==> AllAccepted(code, received[Min(255, |received|)..])
  {
    hide Accepts;
    var n := Min(255, |received|);
    var rest := received[n..];
    assert BlockAt(received, 0) == received[..n];
    if AllAccepted(code, received) {
      forall k | 0 <= k && 255 * k < |rest|
        ensures Accepts(code, BlockAt(rest, k))
      {
        BlockAtTail(received, k);
        assert Accepts(code, BlockAt(received, k + 1));
      }
    }
    if AllAccepted(code, rest) {
      forall k | 0 <= k && 255 * k < |received|
        ensures Accepts(code, BlockAt(received, k))
      {
        if k > 0 {
          BlockAtTail(received, k - 1);
        }
      }
    }
  }

  /** A block whose syndromes do not all vanish and whose locator has no root makes decoding fail. */
  lemma {:induction false} RootlessRefused(code: Code, received: Bytes, k: nat)
    requires ByteCode(code) && 255 * k < |received| && code.fec < |BlockAt(received, k)|
    requires var t := ChunkTrace(code, BlockAt(received, k)); t.roots == [] && !AllZero(t.syndromes)
    ensures FileResult(code, received).0 == ErrDecode
  {
    hide ChunkTrace, FileResult;
    DecodedIff(code, received);
    assert !Accepts(code, BlockAt(received, k));
  }

  /** A last block that is no longer than the parity makes decoding fail. */
  lemma {:induction false} ShortRestRefused(code: Code, received: Bytes, k: nat)
    requires ByteCode(code) && 255 * k < |received| <= 255 * k + code.fec
    ensures FileResult(code, received).0 == ErrDecode
  {
    hide ChunkTrace, FileResult;
    DecodedIff(code, received);
    assert !Accepts(code, BlockAt(received, k));
  }

  // ---------------------------------------------------------------------------------------
  // Within reach of a coded file
  // ---------------------------------------------------------------------------------------

  ghost predicate WithinReach(code: Code, chunk: Bytes, clean: Bytes)
    requires ByteCode(code)
  {
    |clean| == |chunk| && CodedChunk(code, clean) && 2 * Distance(code.f, chunk, clean) <= code.fec
  }

  /** A chunk within reach of a coded one is accepted, and its data are those of the coded one. */
  lemma {:induction false} ChunkRestored(code: Code, chunk: Bytes, clean: Bytes)
    requires ByteCode(code) && WithinReach(code, chunk, clean)
    ensures Accepts(code, chunk) && code.fec < |chunk| <= 255
    ensures DataOf(code, chunk) == clean[..|chunk| - code.fec]
    ensures |ChunkTrace(code, chunk).roots| == Changes(code, chunk) == Distance(code.f, chunk, clean)
  {
    hide Distance, Correctable, Restores, TraceOf, CorrectedBlock, Accepted, ByteOf, Codeword;
    ByteCodeSize(code);
    CodedChunkSize(code, clean);
    ChunkCorrectable(code, chunk, clean);
    WithinReachAccepted(code.f, code.first, code.fec, Loaded(code, chunk), BlockOf(clean, code.fec));
    BlockRestored(code, chunk, CorrectedBlock(code.f, code.first, code.fec, Loaded(code, chunk)), clean);
  }

  /** A chunk is refused only if no coded chunk is within reach. */
  lemma {:induction false} RefusedUnreachable(code: Code, chunk: Bytes)
    requires ByteCode(code) && !Accepts(code, chunk)
    ensures forall clean: Bytes :: !WithinReach(code, chunk, clean)
  {
    hide Accepts, WithinReach;
    forall clean: Bytes
      ensures !WithinReach(code, chunk, clean)
    {
      if WithinReach(code, chunk, clean) {
        ChunkRestored(code, chunk, clean);
      }
    }
  }

  /** The first blocks of three files match, and the same holds of what follows them. */
  lemma {:induction false} RecoveryStep(code: Code, input: Bytes, sent: Bytes, received: Bytes)
    requires ByteCode(code) && Encodes(code, input, sent) && Near(code, sent, received) && input != []
    ensures 0 < code.fec < 255
    ensures var k := Min(255 - code.fec, |input|);
            var c := k + code.fec;
            && c == Min(255, |received|) && |sent| == |received|
            && WithinReach(code, received[..c], sent[..c]) && sent[..c][..k] == input[..k]
            && Encodes(code, input[k..], sent[c..]) && Near(code, sent[c..], received[c..])
  {
    hide CodedChunk, Distance, Valid;
    SameBlocks(code, input, sent);
  }

  /** Whatever a channel does to an encoded file within the correction radius of every block, the
  decoder gives back exactly the file that was encoded. */
  lemma {:induction false} CorruptedFileRecovered(code: Code, input: Bytes, sent: Bytes, received: Bytes)
    requires ByteCode(code) && Encodes(code, input, sent) && Near(code, sent, received)
    ensures FileResult(code, received) == (Success, input) && (received == [] <==> input == [])
    decreases |input|
  {
    hide Encodes, Near, FileResult, WithinReach, Accepts, DataOf, ByteCode;
    if input == [] {
      NothingSent(code, sent, received);
      NothingDecoded(code);
    } else {
      RecoveryStep(code, input, sent, received);
      var k := Min(255 - code.fec, |input|);
      var c := k + code.fec;
      ChunkRestored(code, received[..c], sent[..c]);
      ResultStep(code, received);
      CorruptedFileRecovered(code, input[k..], sent[c..], received[c..]);
      assert input == input[..k] + input[k..];
    }
  }

  lemma {:induction false} NothingSent(code: Code, sent: Bytes, received: Bytes)
    requires ByteCode(code) && Encodes(code, [], sent) && Near(code, sent, received)
    ensures received == []
  {
  }

  // ---------------------------------------------------------------------------------------
  // The file encoder
  // ---------------------------------------------------------------------------------------

  class FileEncoder {
    ghost const code: Code
    const encoder: Encoder
    const block: Block

    ghost predicate Ok() {
      && ByteCode(code) && encoder.f == code.f && encoder.valid
      && (exists c: nat :: IsGenerator(encoder.f, encoder.generator, code.first, code.fec, c))
      && block.fecLength == code.fec && block.data.Length == 255
    }

    constructor (encoder: Encoder, fec: nat, ghost code: Code)
      requires ByteCode(code) && code.fec == fec && encoder.f == code.f && encoder.valid
      requires exists c: nat :: IsGenerator(encoder.f, encoder.generator, code.first, code.fec, c)
      ensures Ok() && this.code == code && fresh(block) && fresh(block.data)
    {
      this.code := code;
      this.encoder := encoder;
      var b := new Block(255, fec);
      this.block := b;
    }

    /** Encodes the next bytes of the file: at most a block full, less at its end. */
    method ProcessBlock(data: Bytes) returns (written: Bytes)
      requires Ok() && 0 < |data| <= 255 - code.fec
      modifies block, block.data
      ensures |written| == |data| + code.fec && written[..|data|] == data && CodedChunk(code, written)
    {
      hide IsGenerator, Codeword, CodewordOf, Valid;
      var n := 255 - block.fecLength;
      ByteCodeSize(code);
      var i := 0;
      while i < |data|
        invariant 0 <= i <= |data|
        invariant forall k :: 0 <= k < i ==> block.data[k] == data[k]
        modifies block.data
      {
        block.data[i] := data[i];
        i := i + 1;
      }
      while i < n
        invariant |data| <= i <= n
        invariant forall k :: 0 <= k < |data| ==> block.data[k] == data[k]
        invariant forall k :: |data| <= k < i ==> block.data[k] == 0
        modifies block.data
      {
        block.data[i] := 0;
        i := i + 1;
      }
      ghost var c: nat :| IsGenerator(encoder.f, encoder.generator, code.first, code.fec, c);
      GeneratorShape(encoder.f, encoder.generator, code.first, code.fec, c);
      var ok := encoder.Encode(block);
      written := data;
      i := 0;
      while i < block.fecLength
        invariant 0 <= i <= block.fecLength && |written| == |data| + i
        invariant written[..|data|] == data
        invariant forall k :: |data| <= k < |data| + i ==> written[k] == block.data[k + (n - |data|)]
      {
        assert Elem(encoder.f, block.data[n + i]);
        written := written + [block.data[n + i] % 256];
        i := i + 1;
      }
      assert forall k :: 0 <= k < |data| ==> written[k] == written[..|data|][k];
      assert block.data[..] == BlockOf(written, code.fec);
      IsCodeword(encoder.f, encoder.generator, code.first, code.fec, c, block.data[..]);
    }

    /** Encodes a whole file; an empty one is refused and produces nothing. */
    method EncodeFile(input: Bytes) returns (output: Bytes)
      requires Ok()
      modifies block, block.data
      ensures Encodes(code, input, output)
    {
      hide Encodes, CodedChunk, IsGenerator, Valid;
      var n := DataLength();
      var remaining := |input|;
      var pos := 0;
      output := [];
      NothingEncoded(code);
      if remaining == 0 {
        assert input == [];
        return;
      }
      while remaining >= n
        invariant remaining == |input| - pos && 0 <= pos <= |input| && WholeBlocks(pos, n)
        invariant Encodes(code, input[..pos], output)
      {
        var w := ProcessBlock(input[pos..pos + n]);
        EncodesOne(code, input[pos..pos + n], w);
        EncodesAppend(code, input[..pos], output, input[pos..pos + n], w);
        assert input[..pos] + input[pos..pos + n] == input[..pos + n];
        NextMultiple(pos, n);
        output := output + w;
        pos := pos + n;
        remaining := remaining - n;
      }
      if remaining > 0 {
        var w := ProcessBlock(input[pos..]);
        EncodesOne(code, input[pos..], w);
        EncodesAppend(code, input[..pos], output, input[pos..], w);
        assert input[..pos] + input[pos..] == input;
        output := output + w;
      } else {
        assert input[..pos] == input;
      }
    }

    function DataLength(): (n: nat)
      requires Ok()
      ensures n == 255 - code.fec && 0 < n
    {
      255 - block.fecLength
    }
  }

  /** `k` is a number of whole blocks of `n`. */
  ghost predicate WholeBlocks(k: nat, n: nat)
    requires n > 0
  {
    k == 0 || (k >= n && WholeBlocks(k - n, n))
  }

  lemma {:induction false} NextMultiple(k: nat, n: nat)
    requires n > 0 && WholeBlocks(k, n)
    ensures WholeBlocks(k + n, n)
  {
  }

  lemma {:induction false} NothingEncoded(code: Code)
    requires ByteCode(code)
    ensures Encodes(code, [], [])
  {
  }

  lemma {:induction false} EncodesOne(code: Code, data: Bytes, w: Bytes)
    requires ByteCode(code) && 0 < |data| <= 255 - code.fec
    requires |w| == |data| + code.fec && w[..|data|] == data && CodedChunk(code, w)
    ensures Encodes(code, data, w)
  {
    hide CodedChunk;
    var k := |data|;
    assert data[..k] == data && data[k..] == [];
    assert w[..k + code.fec] == w && w[k + code.fec..] == [];
    assert Encodes(code, [], []);
  }

  lemma {:induction false} EncodesCons(code: Code, head: Bytes, w: Bytes, rest: Bytes, y: Bytes)
    requires ByteCode(code) && |head| == 255 - code.fec && |w| == 255 && w[..|head|] == head
    requires CodedChunk(code, w) && Encodes(code, rest, y)
    ensures Encodes(code, head + rest, w + y)
  {
    hide CodedChunk, Valid;
    var n := 255 - code.fec;
    assert (head + rest)[..n] == head && (head + rest)[n..] == rest;
    assert (w + y)[..n] == w[..n] && (w + y)[..255] == w && (w + y)[255..] == y;
  }

  lemma {:induction false} EncodesHead(code: Code, a: Bytes, x: Bytes)
    requires ByteCode(code) && Encodes(code, a, x) && |a| >= 255 - code.fec
    ensures var n := 255 - code.fec;
            && 255 <= |x| && x[..255][..n] == a[..n] && CodedChunk(code, x[..255])
            && Encodes(code, a[n..], x[255..])
  {
    hide CodedChunk, Valid;
    assert x[..255][..255 - code.fec] == x[..255 - code.fec];
  }

  lemma {:induction false} EncodesAppend(code: Code, a: Bytes, x: Bytes, b: Bytes, y: Bytes)
    requires ByteCode(code) && Encodes(code, a, x) && Encodes(code, b, y) && WholeBlocks(|a|, 255 - code.fec)
    ensures Encodes(code, a + b, x + y)
    decreases |a|
  {
    hide Encodes, Valid, CodedChunk;
    var n := 255 - code.fec;
    if a == [] {
      EncodesNothing(code, x);
      assert a + b == b && x + y == y;
    } else {
      EncodesHead(code, a, x);
      EncodesAppend(code, a[n..], x[255..], b, y);
      EncodesCons(code, a[..n], x[..255], a[n..] + b, x[255..] + y);
      Regroup(a, n, b);
      Regroup(x, 255, y);
    }
  }

  lemma {:induction false} EncodesNothing(code: Code, x: Bytes)
    requires ByteCode(code) && Encodes(code, [], x)
    ensures x == []
  {
  }

  lemma {:induction false} Regroup(a: Bytes, n: nat, b: Bytes)
    requires n <= |a|
    ensures a[..n] + (a[n..] + b) == a + b
  {
  }

  lemma {:induction false} GeneratorShape(f: GF, g: Poly, first: nat, fec: nat, c: nat)
    requires IsGenerator(f, g, first, fec, c)
    ensures |g| == fec + 1 && Elems(f, g)
  {
  }

  lemma {:induction false} IsCodeword(f: GF, g: Poly, first: nat, fec: nat, c: nat, data: seq<int>)
    requires CodewordOf(f, g, fec, data) && IsGenerator(f, g, first, fec, c) && first + fec <= Size(f)
    ensures Codeword(f, first, fec, data)
  {
    hide IsGenerator, Codeword;
  }

  // ---------------------------------------------------------------------------------------
  // The file decoder
  // ---------------------------------------------------------------------------------------

  class FileDecoder {
    ghost const code: Code
    const decoder: Decoder
    const block: Block
    var errorsCorrected: nat
    var errorsDetected: nat

    ghost predicate Ok()
      reads decoder
    {
      && ByteCode(code) && decoder.f == code.f && decoder.Ok() && decoder.valid
      && decoder.codeLength == 255 && decoder.fecLength == code.fec && decoder.genInitialIndex == code.first
      && block.fecLength == code.fec && block.data.Length == 255
    }

    constructor (decoder: Decoder, ghost code: Code)
      requires ByteCode(code) && decoder.f == code.f && decoder.Ok() && decoder.valid
      requires decoder.codeLength == 255 && decoder.fecLength == code.fec && decoder.genInitialIndex == code.first
      ensures Ok() && this.code == code && this.decoder == decoder && fresh(block) && fresh(block.data)
      ensures errorsCorrected == errorsDetected == 0
    {
      this.code := code;
      this.decoder := decoder;
      var b := new Block(255, decoder.fecLength);
      this.block := b;
      this.errorsCorrected := 0;
      this.errorsDetected := 0;
    }

    /** Writes the data symbols of the block back to bytes. */
    method DataOut(k: nat) returns (data: Bytes)
      requires k <= block.data.Length
      ensures data == DataBytes(block.data[..], k)
    {
      data := [];
      var i := 0;
      while i < k
        invariant 0 <= i <= k && |data| == i
        invariant forall j :: 0 <= j < i ==> data[j] == ByteOf(block.data[j])
      {
        data := data + [ByteOf(block.data[i])];
        i := i + 1;
      }
    }

    method ProcessCompleteBlock(chunk: Bytes) returns (status: Status, data: Bytes)
      requires Ok() && |chunk| == 255
      modifies this, block, block.data
      ensures Ok()
      ensures status == if Accepts(code, chunk) then Success else ErrDecode
      ensures data == if status == Success then DataOf(code, chunk) else []
      ensures errorsDetected == old(errorsDetected) + |ChunkTrace(code, chunk).roots|
      ensures status == Success ==> errorsCorrected == old(errorsCorrected) + Changes(code, chunk)
    {
      hide Valid, Correctable, Restores, Explains, Distance, CharOf, ByteOf, TraceOf, Accepts, DataOf, Codeword, Changes;
      var i := 0;
      while i < 255
        invariant 0 <= i <= 255
        invariant forall k :: 0 <= k < i ==> block.data[k] == CharOf(chunk[k])
        modifies block.data
      {
        block.data[i] := CharOf(chunk[i]);
        i := i + 1;
      }
      assert block.data[..] == BlockOf(Chars(chunk), code.fec);
      var ok := decoder.Decode(block);
      ChunkExplained(code, chunk, block.data[..], ok);
      errorsDetected := errorsDetected + block.errorsDetected;
      errorsCorrected := errorsCorrected + block.errorsCorrected;
      if !ok {
        return ErrDecode, [];
      }
      data := DataOut(255 - block.fecLength);
      status := Success;
    }

    /** The last block of a file carries less data: the symbols that were never written are zero. */
    method ProcessPartialBlock(chunk: Bytes) returns (status: Status, data: Bytes)
      requires Ok() && 0 < |chunk| < 255
      modifies block, block.data
      ensures Ok()
      ensures status == if Accepts(code, chunk) then Success else ErrDecode
      ensures status == Success ==> code.fec < |chunk| && data == DataOf(code, chunk)
      ensures status != Success ==> data == []
    {
      hide Valid, Correctable, Restores, Explains, Distance, CharOf, ByteOf, Codeword, TraceOf, ChunkTrace, DataOf, Changes;
      var fec, readAmount := block.fecLength, |chunk|;
      if readAmount <= fec {
        return ErrDecode, [];
      }
      var k := readAmount - fec;
      var i := 0;
      while i < k
        invariant 0 <= i <= k
        invariant forall j :: 0 <= j < i ==> block.data[j] == CharOf(chunk[j])
        modifies block.data
      {
        block.data[i] := CharOf(chunk[i]);
        i := i + 1;
      }
      while i < 255 - fec
        invariant k <= i <= 255 - fec
        invariant forall j :: 0 <= j < k ==> block.data[j] == CharOf(chunk[j])
        invariant forall j :: k <= j < i ==> block.data[j] == 0
        modifies block.data
      {
        block.data[i] := 0;
        i := i + 1;
      }
      i := 0;
      while i < fec
        invariant 0 <= i <= fec
        invariant forall j :: 0 <= j < k ==> block.data[j] == CharOf(chunk[j])
        invariant forall j :: k <= j < 255 - fec ==> block.data[j] == 0
        invariant forall j :: 255 - fec <= j < 255 - fec + i ==> block.data[j] == CharOf(chunk[j - (255 - readAmount)])
        modifies block.data
      {
        block.data[255 - fec + i] := CharOf(chunk[k + i]);
        i := i + 1;
      }
      assert block.data[..] == BlockOf(Chars(chunk), code.fec);
      var ok := decoder.Decode(block);
      ChunkExplained(code, chunk, block.data[..], ok);
      if !ok {
        return ErrDecode, [];
      }
      data := DataOut(k);
      status := Success;
    }

    /** Decodes a whole file, block after block until one is refused. */
    method DecodeFile(received: Bytes) returns (status: Status, output: Bytes)
      requires Ok()
      modifies this, block, block.data
      ensures received == [] ==> status == ZeroSize && output == []
      ensures received != [] ==> (status, output) == FileResult(code, received)
      ensures errorsDetected == old(errorsDetected) + Detected(code, received)
      ensures status == Success ==> errorsCorrected == old(errorsCorrected) + Corrected(code, received)
    {
      hide Valid, FileResult, Detected, Corrected, Accepts, DataOf, ChunkTrace, Changes;
      assert forall s: Bytes :: s + [] == s;
      var remaining := |received|;
      output := [];
      DetectedStep(code, received);
      if remaining == 0 {
        return ZeroSize, [];
      }
      var pos := 0;
      assert received[0..] == received;
      while remaining >= 255
        invariant Ok() && remaining == |received| - pos && 0 <= pos <= |received|
        invariant FileResult(code, received).0 == FileResult(code, received[pos..]).0
        invariant FileResult(code, received).1 == output + FileResult(code, received[pos..]).1
        invariant Detected(code, received) == errorsDetected - old(errorsDetected) + Detected(code, received[pos..])
        invariant Corrected(code, received) == errorsCorrected - old(errorsCorrected) + Corrected(code, received[pos..])
      {
        ghost var left, next := received[pos..], received[pos + 255..];
        ResultStep(code, left);
        DetectedStep(code, left);
        CorrectedStep(code, left);
        var chunk := received[pos..pos + 255];
        assert chunk == left[..255] && left[255..] == next;
        var s, data := ProcessCompleteBlock(chunk);
        if s != Success {
          return ErrDecode, output;
        }
        assert output + (data + FileResult(code, next).1) == output + data + FileResult(code, next).1;
        output := output + data;
        pos := pos + 255;
        remaining := remaining - 255;
      }
      NothingDecoded(code);
      DetectedStep(code, received[pos..]);
      CorrectedStep(code, received[pos..]);
      if remaining > 0 {
        var chunk := received[pos..];
        ResultStep(code, chunk);
        assert chunk == chunk[..|chunk|] && chunk[|chunk|..] == [];
        var s, data := ProcessPartialBlock(chunk);
        if s != Success {
          return ErrDecode, output;
        }
        assert data + [] == data;
        output := output + data;
      } else {
        assert received[pos..] == [];
      }
      status := Success;
    }
  }

  // ---------------------------------------------------------------------------------------
  // The decode report
  // ---------------------------------------------------------------------------------------

  /** A coded file was sent, and what was received is within reach of it. */
  ghost predicate SentWithinReach(code: Code, sent: Bytes, received: Bytes)
    requires ByteCode(code)
  {
    CodedFile(code, sent) && Near(code, sent, received)
  }

  /** The errors in all blocks but an incomplete last one. */
  ghost function Reported(code: Code, sent: Bytes, received: Bytes): nat
    requires ByteCode(code)
    decreases |sent|
  {
    if |sent| != |received| || |sent| < 255 then 0
    else Distance(code.f, received[..255], sent[..255]) + Reported(code, sent[255..], received[255..])
  }

  lemma {:induction false} ReportedStep(code: Code, sent: Bytes, received: Bytes)
    requires ByteCode(code) && |received| >= 255
    ensures SentWithinReach(code, sent, received) ==>
              && |sent| >= 255 && WithinReach(code, received[..255], sent[..255])
              && SentWithinReach(code, sent[255..], received[255..])
              && Reported(code, sent, received) ==
                 Distance(code.f, received[..255], sent[..255]) + Reported(code, sent[255..], received[255..])
  {
    hide CodedChunk, Distance, Valid;
  }

  /** What is within reach of a sent file is reported exactly, but for an incomplete last block. */
  lemma {:induction false} ReportExact(code: Code, sent: Bytes, received: Bytes)
    requires ByteCode(code) && SentWithinReach(code, sent, received)
    ensures Detected(code, received) == Corrected(code, received) == Reported(code, sent, received)
    decreases |received|
  {
    hide SentWithinReach, WithinReach, Distance, ChunkTrace, Changes, Accepts;
    if |received| >= 255 {
      hide Detected, Corrected, Reported;
      ReportedStep(code, sent, received);
      DetectedStep(code, received);
      CorrectedStep(code, received);
      ChunkRestored(code, received[..255], sent[..255]);
      ReportExact(code, sent[255..], received[255..]);
    }
  }

  /** All errors in a file. */
  ghost function AllErrors(code: Code, sent: Bytes, received: Bytes): nat
    requires ByteCode(code) && |sent| == |received|
    decreases |sent|
  {
    if sent == [] then 0
    else
      var k := Min(255, |sent|);
      Distance(code.f, received[..k], sent[..k]) + AllErrors(code, sent[k..], received[k..])
  }

  /** The errors in an incomplete last block. */
  ghost function LastErrors(code: Code, sent: Bytes, received: Bytes): nat
    requires ByteCode(code) && |sent| == |received|
    decreases |sent|
  {
    if |sent| < 255 then Distance(code.f, received, sent) else LastErrors(code, sent[255..], received[255..])
  }

  /** The errors of a file are those in the report and those in an incomplete last block. */
  lemma {:induction false} ReportedAndLast(code: Code, sent: Bytes, received: Bytes)
    requires ByteCode(code) && |sent| == |received|
    ensures AllErrors(code, sent, received) == Reported(code, sent, received) + LastErrors(code, sent, received)
    decreases |sent|
  {
    hide Distance, Valid;
    if sent == [] {
      DistanceSelf(code.f, []);
    } else if |sent| < 255 {
      assert sent[..|sent|] == sent && received[..|sent|] == received;
      assert AllErrors(code, [], []) == 0;
      assert sent[|sent|..] == [] && received[|sent|..] == [];
    } else {
      ReportedAndLast(code, sent[255..], received[255..]);
    }
  }

  lemma {:induction false} WholeHasNoLast(code: Code, sent: Bytes, received: Bytes)
    requires ByteCode(code) && |sent| == |received| && WholeBlocks(|sent|, 255)
    ensures LastErrors(code, sent, received) == 0
    decreases |sent|
  {
    hide Distance, Valid;
    if sent == [] {
      DistanceSelf(code.f, []);
    } else {
      WholeHasNoLast(code, sent[255..], received[255..]);
    }
  }

  lemma {:induction false} NoRadiusNoErrors(code: Code, sent: Bytes, received: Bytes)
    requires ByteCode(code) && code.fec < 2 && Near(code, sent, received)
    ensures LastErrors(code, sent, received) == 0
    decreases |sent|
  {
    hide Distance, Valid;
    if sent == [] {
      DistanceSelf(code.f, []);
    } else if |sent| < 255 {
      assert sent[..|sent|] == sent && received[..|sent|] == received;
    } else {
      NoRadiusNoErrors(code, sent[255..], received[255..]);
    }
  }

  function OtherByte(b: byte): (r: byte)
    ensures r != b
  {
    if b == 255 then 0 else b + 1
  }

  /** The file with another last byte. */
  function SpoilLast(sent: Bytes): (r: Bytes)
    requires sent != []
    ensures |r| == |sent|
  {
    sent[|sent| - 1 := OtherByte(sent[|sent| - 1])]
  }

  lemma {:induction false} SpoiledByOne(f: Field, s: Bytes)
    requires s != [] && Pow2(f.power) == 256
    ensures Distance(f, SpoilLast(s), s) == 1
  {
    hide Symbol;
    var init, b := s[..|s| - 1], s[|s| - 1];
    var c := OtherByte(b);
    DistanceSelf(f, init);
    DistanceAppend(f, init, init, [c], [b]);
    SymbolOfChar(f, b);
    SymbolOfChar(f, c);
    assert SpoilLast(s) == init + [c] && s == init + [b];
    assert [c][1..] == [] && [b][1..] == [];
    assert Distance(f, [c], [b]) == Distance(f, [], []) + 1;
  }

  lemma {:induction false} SpoiledIsNear(code: Code, sent: Bytes)
    requires ByteCode(code) && code.fec >= 2 && !WholeBlocks(|sent|, 255) && sent != []
    ensures Near(code, sent, SpoilLast(sent)) && LastErrors(code, sent, SpoilLast(sent)) == 1
    decreases |sent|
  {
    hide Distance, Valid;
    ByteCodeSize(code);
    var r := SpoilLast(sent);
    if |sent| < 255 {
      SpoiledByOne(code.f, sent);
      assert sent[..|sent|] == sent && r[..|sent|] == r;
      assert sent[|sent|..] == [] && r[|sent|..] == [];
    } else {
      assert WholeBlocks(0, 255);
      assert |sent| > 255;
      SpoiledIsNear(code, sent[255..]);
      assert r[..255] == sent[..255] && r[255..] == SpoilLast(sent[255..]);
      DistanceSelf(code.f, sent[..255]);
    }
  }

  /** The report is exact for everything that can be corrected if and only if the file is a number of
  whole blocks, or nothing can be corrected at all. */
  lemma {:induction false} ReportIff(code: Code, sent: Bytes)
    requires ByteCode(code)
    ensures (forall received :: |received| == |sent| && Near(code, sent, received) ==>
               Reported(code, sent, received) == AllErrors(code, sent, received)) <==>
            (WholeBlocks(|sent|, 255) || code.fec < 2)
  {
    hide Near, Reported, AllErrors, LastErrors, Valid;
    if WholeBlocks(|sent|, 255) || code.fec < 2 {
      forall received | |received| == |sent| && Near(code, sent, received)
        ensures Reported(code, sent, received) == AllErrors(code, sent, received)
      {
        ReportedAndLast(code, sent, received);
        if WholeBlocks(|sent|, 255) {
          WholeHasNoLast(code, sent, received);
        } else {
          NoRadiusNoErrors(code, sent, received);
        }
      }
    } else {
      SpoiledIsNear(code, sent);
      ReportedAndLast(code, sent, SpoilLast(sent));
      assert Reported(code, sent, SpoilLast(sent)) != AllErrors(code, sent, SpoilLast(sent));
    }
  }

  lemma {:induction false} EvalZeros(f: GF, s: Poly, x: nat)
    requires forall i :: 0 <= i < |s| ==> s[i] == 0
    ensures Eval(f, s, x) == 0
    decreases |s|
  {
    hide Mul;
    if s != [] {
      EvalZeros(f, s[1..], x);
      MulZero(f, x);
    }
  }

  lemma {:induction false} ZerosAreCoded(code: Code, k: nat)
    requires ByteCode(code) && code.fec < k <= 255
    ensures CodedChunk(code, Fill(0, k))
  {
    hide Eval, Alpha, Valid;
    ByteCodeSize(code);
    var block := BlockOf(Fill(0, k), code.fec);
    forall j | code.first <= j < code.first + code.fec
      ensures Eval(code.f, Load(code.f, block), Alpha(code.f, j)) == 0
    {
      EvalZeros(code.f, Load(code.f, block), Alpha(code.f, j));
    }
  }

  /** One changed byte in a short file of zeros is corrected and not reported. */
  lemma {:induction false} ShortFileUncounted(code: Code)
    requires ByteCode(code) && 2 <= code.fec < 254
    ensures var sent := Fill(0, code.fec + 1);
            var received := SpoilLast(sent);
            && SentWithinReach(code, sent, received)
            && AllErrors(code, sent, received) == 1 && Reported(code, sent, received) == 0
  {
    hide Near, AllErrors, LastErrors, Valid, CodedChunk, Distance;
    var sent := Fill(0, code.fec + 1);
    ZerosAreCoded(code, code.fec + 1);
    assert sent[..|sent|] == sent && sent[|sent|..] == [];
    assert CodedFile(code, []);
    SpoiledIsNear(code, sent);
    ReportedAndLast(code, sent, SpoilLast(sent));
  }

  /** A file that nothing happened to is within reach. */
  lemma {:induction false} NearSelf(code: Code, sent: Bytes)
    requires ByteCode(code)
    ensures Near(code, sent, sent)
    decreases |sent|
  {
    hide Distance, Valid;
    if sent != [] {
      var k := Min(255, |sent|);
      DistanceSelf(code.f, sent[..k]);
      NearSelf(code, sent[k..]);
    }
  }
}
