/** The hash trailer: a keyed digest for each block of the image, then the number of digests. The
digest function is a parameter; nothing is assumed of it but the length of its results. */
module HashTrailer {
  import opened ByteString

  const DIGEST_SIZE := 32
  const DEF_HASH_BLOCK_SIZE := 1048576

  type Digest = s: Bytes | |s| == 32 witness Fill(0, 32)

  type Mac = Bytes -> Digest

  // ---------------------------------------------------------------------------------------
  // Blocks and their digests
  // ---------------------------------------------------------------------------------------

  /** Consecutive blocks of `n` bytes, the last one as long as what is left. */
  function Blocks(s: Bytes, n: nat): seq<Bytes>
    requires n > 0
    decreases |s|
  {
    if s == [] then [] else if |s| <= n then [s] else [s[..n]] + Blocks(s[n..], n)
  }

  function Join(bs: seq<Bytes>): Bytes
  {
    if bs == [] then [] else bs[0] + Join(bs[1..])
  }

  /** Every byte belongs to exactly one block. */
  lemma {:induction false} BlocksCover(s: Bytes, n: nat)
    requires n > 0
    ensures Join(Blocks(s, n)) == s
    decreases |s|
  {
    var bs := Blocks(s, n);
    if |s| > n {
      BlocksCover(s[n..], n);
      assert bs[1..] == Blocks(s[n..], n);
      assert s[..n] + s[n..] == s;
    } else if s != [] {
      assert bs[1..] == [];
    }
  }

  /** The length of the block that starts at a position. */
  function BlockLength(s: Bytes, at: nat, n: nat): nat
    requires at <= |s|
  {
    if |s| - at < n then |s| - at else n
  }

  lemma {:induction false} BlocksStep(s: Bytes, at: nat, n: nat)
    requires n > 0 && at < |s|
    ensures var c := BlockLength(s, at, n);
            Blocks(s[at..], n) == [s[at..at + c]] + Blocks(s[at + c..], n)
  {
    var t, c := s[at..], BlockLength(s, at, n);
    assert t[..c] == s[at..at + c] && t[c..] == s[at + c..];
    if |t| <= n {
      assert t == s[at..at + c] && s[at + c..] == [];
    }
  }

  function Digests(mac: Mac, bs: seq<Bytes>): (r: Bytes)
    ensures |r| == DIGEST_SIZE * |bs|
  {
    if bs == [] then [] else Digests(mac, bs[..|bs| - 1]) + mac(bs[|bs| - 1])
  }

  /** The digest of a block lies at its place. */
  lemma {:induction false} DigestAt(mac: Mac, bs: seq<Bytes>, k: nat)
    requires k < |bs|
    ensures Digests(mac, bs)[DIGEST_SIZE * k..DIGEST_SIZE * k + DIGEST_SIZE] == mac(bs[k])
    decreases |bs|
  {
    var init := bs[..|bs| - 1];
    if k < |bs| - 1 {
      DigestAt(mac, init, k);
      assert Digests(mac, bs)[DIGEST_SIZE * k..DIGEST_SIZE * k + DIGEST_SIZE] ==
             Digests(mac, init)[DIGEST_SIZE * k..DIGEST_SIZE * k + DIGEST_SIZE];
    }
  }

  /** The block size is the default one, or the size of the image if that is smaller. */
  function BlockSize(size: nat): (r: nat)
    ensures size > 0 ==> r > 0
  {
    if DEF_HASH_BLOCK_SIZE > size then size else DEF_HASH_BLOCK_SIZE
  }

  function ImageBlocks(image: Bytes): seq<Bytes>
  {
    if image == [] then [] else Blocks(image, BlockSize(|image|))
  }

  /** An image with its trailer. */
  function Sealed(mac: Mac, image: Bytes): Bytes
  {
    var bs := ImageBlocks(image);
    image + Digests(mac, bs) + BigEndian(|bs|, 4)
  }

  /** There are as many blocks as the size divided by the block size, rounded up. */
  lemma {:induction false} BlocksRoundUp(s: Bytes, n: nat)
    requires n > 0 && s != []
    ensures (|Blocks(s, n)| - 1) * n < |s| <= |Blocks(s, n)| * n
    decreases |s|
  {
    if |s| > n {
      BlocksRoundUp(s[n..], n);
      var c := |Blocks(s[n..], n)|;
      NextProduct(c, n);
      NextProduct(c - 1, n);
    }
  }

  // ---------------------------------------------------------------------------------------
  // The partition, in numbers
  // ---------------------------------------------------------------------------------------

  /** How many blocks of 1048576 bytes, the last one possibly shorter, a number of bytes fills. */
  function BlockCount(size: nat): nat
  {
    (size + 1048575) / 1048576
  }

  /** Bytes `1048576 k` up to `1048576 (k + 1)`, or up to the end. */
  function Megabyte(s: Bytes, k: nat): Bytes
    requires 1048576 * k <= |s|
  {
    s[1048576 * k..if 1048576 * (k + 1) < |s| then 1048576 * (k + 1) else |s|]
  }

  lemma {:induction false} ImageBlocksAre(image: Bytes)
    ensures ImageBlocks(image) == Blocks(image, 1048576)
  {
  }

  lemma {:induction false} BlocksCount(s: Bytes)
    ensures |Blocks(s, 1048576)| == BlockCount(|s|)
    decreases |s|
  {
    if |s| > 1048576 {
      BlocksCount(s[1048576..]);
    }
  }

  lemma {:induction false} BlocksMegabyte(s: Bytes, k: nat)
    requires k < BlockCount(|s|)
    ensures |Blocks(s, 1048576)| == BlockCount(|s|) && 1048576 * k < |s| && Blocks(s, 1048576)[k] == Megabyte(s, k)
    decreases k
  {
    BlocksCount(s);
    if |s| > 1048576 && k > 0 {
      BlocksMegabyte(s[1048576..], k - 1);
      assert Megabyte(s[1048576..], k - 1) == Megabyte(s, k);
    }
  }

  lemma {:induction false} ImageBlockAt(image: Bytes, k: nat)
    requires k < BlockCount(|image|)
    ensures |ImageBlocks(image)| == BlockCount(|image|) && 1048576 * k < |image| && ImageBlocks(image)[k] == Megabyte(image, k)
  {
    hide Blocks, ImageBlocks, Megabyte, BlockCount;
    ImageBlocksAre(image);
    BlocksMegabyte(image, k);
  }

  /** A sealed image, byte by byte: the image, one digest of 32 bytes for every 1048576 bytes of it, and
  the number of digests. */
  lemma {:induction false} SealedBytes(mac: Mac, image: Bytes)
    requires |image| < TWO32 / 2
    ensures var file, n := Sealed(mac, image), (|image| + 1048575) / 1048576;
            && |file| == |image| + 32 * n + 4 && file[..|image|] == image
            && FromBigEndian(file[|image| + 32 * n..]) == n
            && forall k :: 0 <= k < n ==> 1048576 * k < |image| && file[|image| + 32 * k..|image| + 32 * k + 32] == mac(Megabyte(image, k))
  {
    hide Blocks, ImageBlocks, Digests, BigEndian, FromBigEndian, Megabyte;
    var file, n, bs := Sealed(mac, image), BlockCount(|image|), ImageBlocks(image);
    ImageBlocksAre(image);
    BlocksCount(image);
    RoundTrip32(n);
    assert file[|image| + 32 * n..] == BigEndian(n, 4);
    forall k | 0 <= k < n
      ensures 1048576 * k < |image| && file[|image| + 32 * k..|image| + 32 * k + 32] == mac(Megabyte(image, k))
    {
      ImageBlockAt(image, k);
      DigestAt(mac, bs, k);
      assert file[|image| + 32 * k..|image| + 32 * k + 32] == Digests(mac, bs)[32 * k..32 * k + 32];
    }
  }

  /** Digests agree with a run of bytes exactly if each does. */
  lemma {:induction false} DigestsMatch(mac: Mac, bs: seq<Bytes>, stored: Bytes)
    requires DIGEST_SIZE * |bs| <= |stored|
    ensures Digests(mac, bs) <= stored <==> forall k :: 0 <= k < |bs| ==> DigestMatches(mac, bs, stored, k)
  {
    hide Digests;
    if Digests(mac, bs) <= stored {
      forall k | 0 <= k < |bs|
        ensures DigestMatches(mac, bs, stored, k)
      {
        DigestAt(mac, bs, k);
        PrefixSlice(Digests(mac, bs), stored, DIGEST_SIZE * k, DIGEST_SIZE * k + DIGEST_SIZE);
      }
    }
    if forall k :: 0 <= k < |bs| ==> DigestMatches(mac, bs, stored, k) {
      MatchesJoin(mac, bs, stored, |bs|);
      assert bs[..|bs|] == bs;
    }
  }

  lemma {:induction false} MatchesJoin(mac: Mac, bs: seq<Bytes>, stored: Bytes, n: nat)
    requires DIGEST_SIZE * |bs| <= |stored| && n <= |bs|
    requires forall k :: 0 <= k < n ==> DigestMatches(mac, bs, stored, k)
    ensures Digests(mac, bs[..n]) <= stored
    decreases n
  {
    hide Digests;
    NoDigests(mac);
    if n > 0 {
      MatchesJoin(mac, bs, stored, n - 1);
      DigestsNext(mac, bs, n - 1);
      assert DigestMatches(mac, bs, stored, n - 1);
      JoinedPrefix(Digests(mac, bs[..n - 1]), mac(bs[n - 1]), stored);
    }
  }

  predicate DigestMatches(mac: Mac, bs: seq<Bytes>, stored: Bytes, k: nat)
    requires k < |bs| && DIGEST_SIZE * |bs| <= |stored|
  {
    stored[DIGEST_SIZE * k..DIGEST_SIZE * k + DIGEST_SIZE] == mac(bs[k])
  }

  lemma {:induction false} JoinedPrefix(a: Bytes, b: Bytes, s: Bytes)
    requires |a| + |b| <= |s|
    ensures a + b <= s <==> a <= s && s[|a|..|a| + |b|] == b
  {
    if a + b <= s {
      assert a + b == s[..|a| + |b|];
      assert (a + b)[..|a|] == a && (a + b)[|a|..] == b;
    }
  }

  // ---------------------------------------------------------------------------------------
  // Sealing
  // ---------------------------------------------------------------------------------------

  /** After `count` blocks the next one starts at `at`. */
  ghost predicate Reached(image: Bytes, count: nat, at: nat)
  {
    && at <= |image| && count <= |ImageBlocks(image)|
    && (at < |image| ==> at == count * BlockSize(|image|))
    && if image == [] then count == 0 else Blocks(image[at..], BlockSize(|image|)) == ImageBlocks(image)[count..]
  }

  lemma {:induction false} ReachedStart(image: Bytes)
    ensures Reached(image, 0, 0)
  {
    assert image[0..] == image;
    assert ImageBlocks(image)[0..] == ImageBlocks(image);
  }

  lemma {:induction false} ReachedNext(image: Bytes, count: nat, at: nat)
    requires Reached(image, count, at) && at < |image|
    ensures var n := BlockSize(|image|);
            var c := BlockLength(image, at, n);
            && at == count * n && c > 0 && count < |ImageBlocks(image)|
            && ImageBlocks(image)[count] == image[at..at + c]
            && Reached(image, count + 1, at + c)
            && BlockLength(image, at + c, n) == if c > |image| - at - c then |image| - at - c else c
  {
    hide Blocks;
    var n := BlockSize(|image|);
    var c, all := BlockLength(image, at, n), ImageBlocks(image);
    BlocksStep(image, at, n);
    assert |all[count..]| > 0 && all[count..][0] == all[count];
    assert all[count..][1..] == all[count + 1..];
    NextProduct(count, n);
  }

  lemma {:induction false} NextProduct(k: nat, n: nat)
    ensures (k + 1) * n == k * n + n
  {
  }

  lemma {:induction false} ReachedEnd(image: Bytes, count: nat)
    requires Reached(image, count, |image|)
    ensures count == |ImageBlocks(image)|
  {
    assert image[|image|..] == [];
    assert image != [] ==> |ImageBlocks(image)[count..]| == 0;
  }

  lemma {:induction false} DigestsNext(mac: Mac, bs: seq<Bytes>, k: nat)
    requires k < |bs|
    ensures Digests(mac, bs[..k + 1]) == Digests(mac, bs[..k]) + mac(bs[k])
  {
    assert bs[..k + 1][..k] == bs[..k];
  }

  /** Appends the digests of an image to it. Offsets are signed 32-bit numbers here. */
  method HashAndAppend(image: Bytes, mac: Mac) returns (file: Bytes)
    requires |image| < TWO32 / 2
    ensures file == Sealed(mac, image)
    ensures var n := (|image| + 1048575) / 1048576;
            && |file| == |image| + 32 * n + 4 && file[..|image|] == image
            && FromBigEndian(file[|image| + 32 * n..]) == n
            && forall k :: 0 <= k < n ==> 1048576 * k < |image| && file[|image| + 32 * k..|image| + 32 * k + 32] == mac(Megabyte(image, k))
  {
    hide Digests, ImageBlocks, BigEndian, FromBigEndian, Reached, BlockSize, Megabyte;
    SealedBytes(mac, image);
    file := image;
    var hashBlockSize := BlockSize(|image|);
    var blockSize: int := hashBlockSize;
    var remaining: int := |image|;
    var numberHashes := 0;
    ghost var at, all := 0, ImageBlocks(image);
    ReachedStart(image);
    NoDigests(mac);
    BlockSizeFits(image);
    while remaining > 0
      invariant at <= |image| && remaining == |image| - at && numberHashes <= |all|
      invariant Reached(image, numberHashes, at) && blockSize == BlockLength(image, at, hashBlockSize)
      invariant file == image + Digests(mac, all[..numberHashes])
    {
      ReachedNext(image, numberHashes, at);
      DigestsNext(mac, all, numberHashes);
      numberHashes := numberHashes + 1;
      var location := (numberHashes - 1) * hashBlockSize;
      var buffer := file[location..location + blockSize];
      assert buffer == image[at..at + blockSize];
      file := file + mac(buffer);
      at := at + blockSize;
      remaining := remaining - blockSize;
      if blockSize > remaining {
        blockSize := remaining;
      }
    }
    ReachedEnd(image, numberHashes);
    assert all[..numberHashes] == all;
    file := file + BigEndian(numberHashes, 4);
  }

  lemma NoDigests(mac: Mac)
    ensures Digests(mac, []) == []
  {
  }

  lemma {:induction false} BlockSizeFits(image: Bytes)
    ensures BlockLength(image, 0, BlockSize(|image|)) == BlockSize(|image|)
  {
  }

  // ---------------------------------------------------------------------------------------
  // Checking
  // ---------------------------------------------------------------------------------------

  /** The number of digests that a file claims to hold. */
  function ClaimedCount(file: Bytes): nat
    requires |file| >= 4
  {
    FromBigEndian(file[|file| - 4..])
  }

  /** A file that is long enough for the digests that it claims, and claims enough of them. */
  predicate HasTrailer(file: Bytes)
  {
    && 4 <= |file| < TWO32 / 2
    && DIGEST_SIZE * ClaimedCount(file) + 4 <= |file|
    && |ImageBlocks(ImagePart(file))| <= ClaimedCount(file)
  }

  /** What the hash check takes for the image. */
  function ImagePart(file: Bytes): Bytes
    requires 4 <= |file| && DIGEST_SIZE * ClaimedCount(file) + 4 <= |file|
  {
    file[..|file| - 4 - DIGEST_SIZE * ClaimedCount(file)]
  }

  function StoredDigests(file: Bytes): Bytes
    requires 4 <= |file| && DIGEST_SIZE * ClaimedCount(file) + 4 <= |file|
  {
    file[|ImagePart(file)|..|file| - 4]
  }

  /** The stored digests start with those of the blocks of the image. */
  predicate Authentic(mac: Mac, file: Bytes)
    requires HasTrailer(file)
  {
    Digests(mac, ImageBlocks(ImagePart(file))) <= StoredDigests(file)
  }

  /** The bytes of a file with a trailer for which it is accepted: behind the image, the 32 bytes for each
  of its runs of 1048576 bytes are the digest of that run. */
  lemma {:induction false} AuthenticIff(mac: Mac, file: Bytes)
    requires HasTrailer(file)
    ensures var size := |file| - 4 - 32 * FromBigEndian(file[|file| - 4..]);
            var n := (size + 1048575) / 1048576;
            && 0 <= size && size + 32 * n + 4 <= |file|
            && (Authentic(mac, file) <==>
                forall k :: 0 <= k < n ==> 1048576 * k < size && file[size + 32 * k..size + 32 * k + 32] == mac(Megabyte(file[..size], k)))
  {
    hide Blocks, ImageBlocks, Digests, FromBigEndian, Megabyte;
    var image, stored := ImagePart(file), StoredDigests(file);
    var size, n, bs := |image|, BlockCount(|image|), ImageBlocks(image);
    ImageBlocksAre(image);
    BlocksCount(image);
    DigestsMatch(mac, bs, stored);
    forall k | 0 <= k < n
      ensures 1048576 * k < size
      ensures DigestMatches(mac, bs, stored, k) <==> file[size + 32 * k..size + 32 * k + 32] == mac(Megabyte(file[..size], k))
    {
      ImageBlockAt(image, k);
      SliceSlice(file, size, |file| - 4, 32 * k, 32 * k + 32);
    }
  }

  method SameDigest(a: Digest, b: Digest) returns (same: bool)
    ensures same == (a == b)
  {
    var i := 0;
    while i < DIGEST_SIZE
      invariant 0 <= i <= DIGEST_SIZE
      invariant a[..i] == b[..i]
    {
      if a[i] != b[i] {
        return false;
      }
      i := i + 1;
    }
    assert a[..i] == a && b[..i] == b;
    return true;
  }

  /** Checks every block against its digest, up to the first difference. */
  method CheckHash(file: Bytes, mac: Mac) returns (ok: bool)
    requires HasTrailer(file)
    ensures ok <==> Authentic(mac, file)
    ensures var size := |file| - 4 - 32 * FromBigEndian(file[|file| - 4..]);
            var n := (size + 1048575) / 1048576;
            && 0 <= size && size + 32 * n + 4 <= |file|
            && (ok <==>
                forall k :: 0 <= k < n ==> 1048576 * k < size && file[size + 32 * k..size + 32 * k + 32] == mac(Megabyte(file[..size], k)))
  {
    AuthenticIff(mac, file);
    ok := CheckBlocks(file, mac);
  }

  /** The loop over the blocks. */
  method CheckBlocks(file: Bytes, mac: Mac) returns (ok: bool)
    requires HasTrailer(file)
    ensures ok <==> Authentic(mac, file)
  {
    hide Digests, ImageBlocks, FromBigEndian, Reached, BlockSize;
    var numberHashes := FromBigEndian(file[|file| - 4..]);
    var imageSize := |file| - 4 - DIGEST_SIZE * numberHashes;
    var hashesOffset := imageSize;
    ghost var image, stored := ImagePart(file), StoredDigests(file);
    var remaining: int := imageSize;
    var hashBlockSize := BlockSize(imageSize);
    var blockSize: int := hashBlockSize;
    var hashCount := 0;
    ghost var at, all := 0, ImageBlocks(image);
    ReachedStart(image);
    NoDigests(mac);
    BlockSizeFits(image);
    while remaining > 0
      invariant at <= |image| && remaining == |image| - at && hashCount <= |all|
      invariant Reached(image, hashCount, at) && blockSize == BlockLength(image, at, hashBlockSize)
      invariant hashesOffset == imageSize + DIGEST_SIZE * hashCount
      invariant Digests(mac, all[..hashCount]) == stored[..DIGEST_SIZE * hashCount]
    {
      ReachedNext(image, hashCount, at);
      DigestsNext(mac, all, hashCount);
      var mastered := file[hashesOffset..hashesOffset + DIGEST_SIZE];
      var location := hashCount * hashBlockSize;
      var buffer := file[location..location + blockSize];
      assert buffer == image[at..at + blockSize];
      SliceSlice(file, imageSize, |file| - 4, DIGEST_SIZE * hashCount, DIGEST_SIZE * hashCount + DIGEST_SIZE);
      var same := SameDigest(mastered, mac(buffer));
      if !same {
        Mismatch(mac, all, hashCount, stored);
        return false;
      }
      SliceJoin(stored, 0, DIGEST_SIZE * hashCount, DIGEST_SIZE * hashCount + DIGEST_SIZE);
      at := at + blockSize;
      hashCount := hashCount + 1;
      remaining := remaining - blockSize;
      if blockSize > remaining {
        blockSize := remaining;
      }
      hashesOffset := hashesOffset + DIGEST_SIZE;
    }
    ReachedEnd(image, hashCount);
    assert all[..hashCount] == all;
    return true;
  }

  lemma {:induction false} PrefixSlice(s: Bytes, t: Bytes, i: nat, j: nat)
    requires i <= j <= |s| && j <= |t|
    ensures s <= t ==> s[i..j] == t[i..j]
  {
  }

  /** One digest that differs is enough to reject. */
  lemma {:induction false} Mismatch(mac: Mac, bs: seq<Bytes>, k: nat, stored: Bytes)
    requires k < |bs| && DIGEST_SIZE * k + DIGEST_SIZE <= |stored|
    requires stored[DIGEST_SIZE * k..DIGEST_SIZE * k + DIGEST_SIZE] != mac(bs[k])
    ensures !(Digests(mac, bs) <= stored)
  {
    hide Digests;
    DigestAt(mac, bs, k);
    PrefixSlice(Digests(mac, bs), stored, DIGEST_SIZE * k, DIGEST_SIZE * k + DIGEST_SIZE);
  }

  // ---------------------------------------------------------------------------------------
  // What the trailer is for
  // ---------------------------------------------------------------------------------------

  /** The hash check finds the very image that was sealed, and accepts it. */
  lemma {:induction false} SealedAccepted(mac: Mac, image: Bytes)
    requires |Sealed(mac, image)| < TWO32 / 2
    ensures var file := Sealed(mac, image);
            HasTrailer(file) && ImagePart(file) == image && Authentic(mac, file)
  {
    hide Digests, BigEndian, FromBigEndian, ImageBlocks;
    var bs := ImageBlocks(image);
    var file := Sealed(mac, image);
    RoundTrip32(|bs|);
    assert file[|file| - 4..] == BigEndian(|bs|, 4);
    assert ImagePart(file) == image;
    assert StoredDigests(file) == Digests(mac, bs);
  }

  /** An accepted file differs from the sealed one, where only image bytes differ, in blocks that
  have the same digest. */
  lemma {:induction false} ChangesCollide(mac: Mac, image: Bytes, image': Bytes, k: nat)
    requires |Sealed(mac, image)| < TWO32 / 2 && |image'| == |image|
    requires HasTrailer(image' + Sealed(mac, image)[|image|..])
    requires Authentic(mac, image' + Sealed(mac, image)[|image|..])
    requires k < |ImageBlocks(image)|
    ensures |ImageBlocks(image')| == |ImageBlocks(image)|
    ensures mac(ImageBlocks(image')[k]) == mac(ImageBlocks(image)[k])
  {
    hide Digests, BigEndian, FromBigEndian, ImageBlocks;
    var bs, bs' := ImageBlocks(image), ImageBlocks(image');
    var trailer := Digests(mac, bs) + BigEndian(|bs|, 4);
    assert Sealed(mac, image)[|image|..] == trailer;
    var file := image' + trailer;
    SameShape(image, image');
    RoundTrip32(|bs|);
    assert file[|file| - 4..] == BigEndian(|bs|, 4);
    assert ImagePart(file) == image';
    assert StoredDigests(file) == Digests(mac, bs);
    DigestAt(mac, bs, k);
    DigestAt(mac, bs', k);
  }

  lemma {:induction false} SameShape(s: Bytes, t: Bytes)
    requires |s| == |t|
    ensures |ImageBlocks(s)| == |ImageBlocks(t)|
  {
    if s != [] {
      BlocksShape(s, t, BlockSize(|s|));
    }
  }

  lemma {:induction false} BlocksShape(s: Bytes, t: Bytes, n: nat)
    requires n > 0 && |s| == |t|
    ensures |Blocks(s, n)| == |Blocks(t, n)|
    decreases |s|
  {
    if |s| > n {
      BlocksShape(s[n..], t[n..], n);
    }
  }
}
