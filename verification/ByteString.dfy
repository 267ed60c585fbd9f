/** Bytes, and the big-endian numbers that the image stores. */
module ByteString {
  import Bits

  type byte = b: int | 0 <= b < 256
  type Bytes = seq<byte>

  const TWO32 := 0x1_0000_0000
  const TWO64 := 0x1_0000_0000_0000_0000

  const SPACE: byte := 32
  const DOT: byte := 46
  const SLASH: byte := 47
  const BACKSLASH: byte := 92

  function Pow256(k: nat): (r: nat)
    ensures r > 0
  {
    if k == 0 then 1 else 256 * Pow256(k - 1)
  }

  /** The `k` low bytes of `v`, most significant first. */
  function BigEndian(v: nat, k: nat): (r: Bytes)
    ensures |r| == k
  {
    if k == 0 then [] else BigEndian(v / 256, k - 1) + [v % 256]
  }

  function FromBigEndian(s: Bytes): (v: nat)
    ensures v < Pow256(|s|)
  {
    if s == [] then 0 else FromBigEndian(s[..|s| - 1]) * 256 + s[|s| - 1]
  }

  lemma {:induction false} BigEndianRoundTrip(v: nat, k: nat)
    requires v < Pow256(k)
    ensures FromBigEndian(BigEndian(v, k)) == v
    decreases k
  {
    if k > 0 {
      BigEndianRoundTrip(v / 256, k - 1);
      var s := BigEndian(v, k);
      assert s[..|s| - 1] == BigEndian(v / 256, k - 1);
    }
  }

  /** A number without its `j` low bytes. */
  function DropBytes(v: nat, j: nat): nat
  {
    if j == 0 then v else DropBytes(v / 256, j - 1)
  }

  lemma {:induction false} DropBytesBounds(v: nat, j: nat)
    ensures DropBytes(v, j) * Pow256(j) <= v < DropBytes(v, j) * Pow256(j) + Pow256(j)
    decreases j
  {
    if j > 0 {
      DropBytesBounds(v / 256, j - 1);
      var q, p := DropBytes(v, j), Pow256(j - 1);
      assert q * Pow256(j) == 256 * (q * p);
    }
  }

  lemma {:induction false} DropBytesIs(v: nat, j: nat)
    ensures DropBytes(v, j) == v / Pow256(j)
  {
    hide DropBytes, Pow256;
    DropBytesBounds(v, j);
    QuotientIs(v, Pow256(j), DropBytes(v, j));
  }

  lemma {:induction false} QuotientIs(v: nat, n: nat, q: nat)
    requires n > 0 && q * n <= v < q * n + n
    ensures v / n == q
  {
    var p, r := v / n, v % n;
    assert v == p * n + r && 0 <= r < n;
    assert (p - q) * n == p * n - q * n;
    Bits.MultipleBound(p - q, n);
  }

  /** Byte `i` of `k` is the digit of weight `256^(k - 1 - i)`: the most significant one comes first. */
  lemma {:induction false} BigEndianAt(v: nat, k: nat, i: nat)
    requires i < k
    ensures BigEndian(v, k)[i] == v / Pow256(k - 1 - i) % 256
  {
    hide Pow256, BigEndian;
    DigitAt(v, k, i);
    DropBytesIs(v, k - 1 - i);
  }

  lemma {:induction false} DigitAt(v: nat, k: nat, i: nat)
    requires i < k
    ensures BigEndian(v, k)[i] == DropBytes(v, k - 1 - i) % 256
    decreases k
  {
    if i < k - 1 {
      DigitAt(v / 256, k - 1, i);
    }
  }

  lemma Widths()
    ensures Pow256(4) == TWO32 && Pow256(8) == TWO64
  {
  }

  lemma {:induction false} RoundTrip64(v: nat)
    requires v < TWO64
    ensures FromBigEndian(BigEndian(v, 8)) == v
  {
    Widths();
    BigEndianRoundTrip(v, 8);
  }

  lemma {:induction false} RoundTrip32(v: nat)
    requires v < TWO32
    ensures FromBigEndian(BigEndian(v, 4)) == v
  {
    Widths();
    BigEndianRoundTrip(v, 4);
  }

  function Fill(b: byte, n: nat): (r: Bytes)
    ensures |r| == n && forall i :: 0 <= i < n ==> r[i] == b
  {
    seq(n, i => b)
  }

  // ---------------------------------------------------------------------------------------
  // Slices
  // ---------------------------------------------------------------------------------------

  /** A slice of a slice. */
  lemma {:induction false} SliceSlice(s: Bytes, a: nat, b: nat, c: nat, d: nat)
    requires a <= b <= |s| && c <= d <= b - a
    ensures s[a..b][c..d] == s[a + c..a + d]
  {
    var l, r := s[a..b][c..d], s[a + c..a + d];
    assert forall i :: 0 <= i < d - c ==> l[i] == r[i];
  }

  /** Adjacent slices join. */
  lemma {:induction false} SliceJoin(s: Bytes, a: nat, b: nat, c: nat)
    requires a <= b <= c <= |s|
    ensures s[a..b] + s[b..c] == s[a..c]
  {
  }

  /** Where a concatenation lies, its parts lie. */
  lemma {:induction false} SliceParts(s: Bytes, a: nat, x: Bytes, y: Bytes)
    requires a + |x| + |y| <= |s| && s[a..a + |x| + |y|] == x + y
    ensures s[a..a + |x|] == x && s[a + |x|..a + |x| + |y|] == y
  {
    var t := s[a..a + |x| + |y|];
    assert s[a..a + |x|] == t[..|x|] && s[a + |x|..a + |x| + |y|] == t[|x|..];
  }

  // ---------------------------------------------------------------------------------------
  // A file that is written at a cursor
  // ---------------------------------------------------------------------------------------

  /** What a file holds after bytes are written at a position: writing past the end fills the gap
  with zeros, writing nothing changes nothing. */
  function WriteAt(file: Bytes, pos: nat, s: Bytes): (r: Bytes)
    ensures s == [] ==> r == file
    ensures s != [] ==> |r| == if pos + |s| > |file| then pos + |s| else |file|
  {
    if s == [] then file
    else if pos >= |file| then file + Fill(0, pos - |file|) + s
    else if pos + |s| >= |file| then file[..pos] + s
    else file[..pos] + s + file[pos + |s|..]
  }

  lemma {:induction false} WrittenAt(file: Bytes, pos: nat, s: Bytes)
    ensures var r := WriteAt(file, pos, s);
            s != [] ==> forall i :: 0 <= i < |r| ==>
              r[i] == if pos <= i < pos + |s| then s[i - pos] else if i < |file| then file[i] else 0
  {
    var r := WriteAt(file, pos, s);
    if s != [] {
      forall i | 0 <= i < |r|
        ensures r[i] == if pos <= i < pos + |s| then s[i - pos] else if i < |file| then file[i] else 0
      {
      }
    }
  }

  class OutputFile {
    var bytes: Bytes
    var pos: nat

    constructor ()
      ensures bytes == [] && pos == 0
    {
      bytes := [];
      pos := 0;
    }

    method Seek(p: nat)
      modifies this
      ensures pos == p && bytes == old(bytes)
    {
      pos := p;
    }

    method Write(s: Bytes)
      modifies this
      ensures bytes == WriteAt(old(bytes), old(pos), s) && pos == old(pos) + |s|
    {
      bytes := WriteAt(bytes, pos, s);
      pos := pos + |s|;
    }

    method Write64(v: nat)
      modifies this
      ensures bytes == WriteAt(old(bytes), old(pos), BigEndian(v, 8)) && pos == old(pos) + 8
    {
      Write(BigEndian(v, 8));
    }

    method Write32(v: nat)
      modifies this
      ensures bytes == WriteAt(old(bytes), old(pos), BigEndian(v, 4)) && pos == old(pos) + 4
    {
      Write(BigEndian(v, 4));
    }
  }

  /** Consecutive writes are one write. */
  lemma {:induction false} WriteTwice(file: Bytes, pos: nat, s: Bytes, t: Bytes)
    ensures WriteAt(WriteAt(file, pos, s), pos + |s|, t) == WriteAt(file, pos, s + t)
  {
    hide WriteAt;
    if s == [] {
      assert s + t == t;
    } else if t == [] {
      assert s + t == s;
    } else {
      var m := WriteAt(file, pos, s);
      var l, r := WriteAt(m, pos + |s|, t), WriteAt(file, pos, s + t);
      WrittenAt(file, pos, s);
      WrittenAt(m, pos + |s|, t);
      WrittenAt(file, pos, s + t);
      forall i | 0 <= i < |l|
        ensures l[i] == r[i]
      {
      }
    }
  }

  /** Writes to disjoint ranges commute. */
  lemma {:induction false} WriteSwap(file: Bytes, p: nat, s: Bytes, q: nat, t: Bytes)
    requires p + |s| <= q || q + |t| <= p
    ensures WriteAt(WriteAt(file, p, s), q, t) == WriteAt(WriteAt(file, q, t), p, s)
  {
    hide WriteAt;
    if s != [] && t != [] {
      var m, n := WriteAt(file, p, s), WriteAt(file, q, t);
      var l, r := WriteAt(m, q, t), WriteAt(n, p, s);
      WrittenAt(file, p, s);
      WrittenAt(file, q, t);
      WrittenAt(m, q, t);
      WrittenAt(n, p, s);
      forall i | 0 <= i < |l|
        ensures l[i] == r[i]
      {
      }
    }
  }

  // ---------------------------------------------------------------------------------------
  // A file that is read at a cursor
  // ---------------------------------------------------------------------------------------

  class InputFile {
    const bytes: Bytes
    var pos: nat

    constructor (bytes: Bytes)
      ensures this.bytes == bytes && pos == 0
    {
      this.bytes := bytes;
      pos := 0;
    }

    method Seek(p: nat)
      modifies this
      ensures pos == p
    {
      pos := p;
    }

    method Read(n: nat) returns (s: Bytes)
      requires pos + n <= |bytes|
      modifies this
      ensures s == bytes[old(pos)..old(pos) + n] && pos == old(pos) + n
    {
      s := bytes[pos..pos + n];
      pos := pos + n;
    }

    method Read64() returns (v: nat)
      requires pos + 8 <= |bytes|
      modifies this
      ensures v == FromBigEndian(bytes[old(pos)..old(pos) + 8]) && pos == old(pos) + 8
    {
      var s := Read(8);
      v := FromBigEndian(s);
    }

    method Read32() returns (v: nat)
      requires pos + 4 <= |bytes|
      modifies this
      ensures v == FromBigEndian(bytes[old(pos)..old(pos) + 4]) && pos == old(pos) + 4
    {
      var s := Read(4);
      v := FromBigEndian(s);
    }
  }
}
