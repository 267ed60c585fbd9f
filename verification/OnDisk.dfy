/** The image format of a write-once file system: a region of headers in the order of a
depth-first walk, each directory header followed by the offsets of its children, then the
contents of the plain files in the same order. */
module OnDisk {
  import opened ByteString

  /** A file name: at most 255 bytes, none of them zero. */
  type Name = s: Bytes | |s| <= 255 && forall i :: 0 <= i < |s| ==> s[i] != 0

  /** A file tree, as the mastering tool sees it. */
  datatype Node =
    | File(name: Name, time: nat, content: Bytes)
    | Dir(name: Name, time: nat, children: seq<Node>)

  const NAME_SIZE := 256
  const HEADER_SIZE := 284
  const DIRECTORY := 0
  const PLAIN_FILE := 1

  // ---------------------------------------------------------------------------------------
  // Headers
  // ---------------------------------------------------------------------------------------

  /** What one header says. */
  datatype Header = Header(name: Bytes, length: nat, time: nat, offset: nat, kind: nat)

  /** A name, a zero byte, and spaces up to the fixed width. */
  function SpacePad(s: Name): (r: Bytes)
    ensures |r| == NAME_SIZE && CString(r) == s
  {
    var r := s + [0] + Fill(SPACE, 255 - |s|);
    CStringEnds(r, |s|);
    r
  }

  /** The bytes before the first zero byte, or all of them. */
  function CString(s: Bytes): (r: Bytes)
    ensures |r| <= |s| && r == s[..|r|]
    ensures forall i :: 0 <= i < |r| ==> r[i] != 0
    ensures |r| < |s| ==> s[|r|] == 0
  {
    if s == [] || s[0] == 0 then [] else [s[0]] + CString(s[1..])
  }

  lemma {:induction false} CStringEnds(s: Bytes, n: nat)
    requires n < |s| && s[n] == 0 && forall i :: 0 <= i < n ==> s[i] != 0
    ensures CString(s) == s[..n]
  {
    if n > 0 {
      CStringEnds(s[1..], n - 1);
      assert s[..n] == [s[0]] + s[1..][..n - 1];
    }
  }

  function HeaderBytes(name: Name, length: nat, time: nat, offset: nat, kind: nat): (r: Bytes)
    ensures |r| == HEADER_SIZE
  {
    SpacePad(name) + BigEndian(length, 8) + BigEndian(time, 8) + BigEndian(offset, 8) + BigEndian(kind, 4)
  }

  /** The header that 284 bytes spell. */
  function ParseHeader(s: Bytes): Header
    requires |s| == HEADER_SIZE
  {
    Header(CString(s[..256]), FromBigEndian(s[256..264]), FromBigEndian(s[264..272]),
           FromBigEndian(s[272..280]), FromBigEndian(s[280..284]))
  }

  lemma {:induction false} HeaderRoundTrip(name: Name, length: nat, time: nat, offset: nat, kind: nat)
    requires length < TWO64 && time < TWO64 && offset < TWO64 && kind < TWO32
    ensures ParseHeader(HeaderBytes(name, length, time, offset, kind)) == Header(name, length, time, offset, kind)
  {
    hide BigEndian, FromBigEndian, SpacePad, CString;
    RoundTrip64(length);
    RoundTrip64(time);
    RoundTrip64(offset);
    RoundTrip32(kind);
    var s := HeaderBytes(name, length, time, offset, kind);
    assert s[..256] == SpacePad(name);
    assert s[256..264] == BigEndian(length, 8);
    assert s[264..272] == BigEndian(time, 8);
    assert s[272..280] == BigEndian(offset, 8);
    assert s[280..284] == BigEndian(kind, 4);
  }

  // ---------------------------------------------------------------------------------------
  // Sizes
  // ---------------------------------------------------------------------------------------

  function HeaderSpace(n: Node): (r: nat)
    ensures r >= HEADER_SIZE
    decreases n
  {
    HEADER_SIZE + if n.File? then 0 else 8 * |n.children| + HeaderSpaces(n.children)
  }

  function HeaderSpaces(ns: seq<Node>): nat
    decreases ns
  {
    if ns == [] then 0 else HeaderSpaces(ns[..|ns| - 1]) + HeaderSpace(ns[|ns| - 1])
  }

  function DataSpace(n: Node): nat
    decreases n
  {
    if n.File? then |n.content| else DataSpaces(n.children)
  }

  function DataSpaces(ns: seq<Node>): nat
    decreases ns
  {
    if ns == [] then 0 else DataSpaces(ns[..|ns| - 1]) + DataSpace(ns[|ns| - 1])
  }

  // ---------------------------------------------------------------------------------------
  // The image of a tree
  // ---------------------------------------------------------------------------------------

  /** The header of a node whose header lies at `h` and whose contents start at `g`. */
  function HeaderOf(n: Node, h: nat, g: nat): Header
  {
    if n.File? then Header(n.name, |n.content|, n.time, g, PLAIN_FILE)
    else Header(n.name, |n.children|, n.time, h + HEADER_SIZE, DIRECTORY)
  }

  function FirstBytes(n: Node, h: nat, g: nat): (r: Bytes)
    ensures |r| == HEADER_SIZE
  {
    var hd := HeaderOf(n, h, g);
    HeaderBytes(n.name, hd.length, hd.time, hd.offset, hd.kind)
  }

  /** Where the headers of the children of a directory start. */
  function ChildrenStart(n: Node, h: nat): nat
    requires n.Dir?
  {
    h + HEADER_SIZE + 8 * |n.children|
  }

  /** The header region of a node: its own header, and for a directory the offsets of its children
  followed by their header regions. */
  function HeaderImage(n: Node, h: nat, g: nat): (r: Bytes)
    ensures |r| == HeaderSpace(n)
    decreases n
  {
    if n.File? then FirstBytes(n, h, g)
    else FirstBytes(n, h, g) + Slots(n.children, ChildrenStart(n, h)) + HeaderImages(n.children, ChildrenStart(n, h), g)
  }

  function HeaderImages(ns: seq<Node>, h: nat, g: nat): (r: Bytes)
    ensures |r| == HeaderSpaces(ns)
    decreases ns
  {
    if ns == [] then []
    else
      var init := ns[..|ns| - 1];
      HeaderImages(init, h, g) + HeaderImage(ns[|ns| - 1], h + HeaderSpaces(init), g + DataSpaces(init))
  }

  /** The offsets of the headers of siblings, the first of which lies at `h`. */
  function Slots(ns: seq<Node>, h: nat): (r: Bytes)
    ensures |r| == 8 * |ns|
    decreases |ns|
  {
    if ns == [] then []
    else
      var init := ns[..|ns| - 1];
      Slots(init, h) + BigEndian(h + HeaderSpaces(init), 8)
  }

  /** The content of a file is copied if its size, read as a signed 32-bit number, is positive. */
  predicate Copied(size: nat)
  {
    0 < size % TWO32 < TWO32 / 2
  }

  /** The contents as far as they are written: a file that is not copied leaves a gap of zeros
  before the next one that is, and nothing if there is none. */
  function Contents(n: Node): (r: Bytes)
    ensures |r| <= DataSpace(n)
    decreases n
  {
    if n.Dir? then ContentsOf(n.children) else if Copied(|n.content|) then n.content else []
  }

  function ContentsOf(ns: seq<Node>): (r: Bytes)
    ensures |r| <= DataSpaces(ns)
    decreases ns
  {
    if ns == [] then []
    else
      var init := ns[..|ns| - 1];
      AfterGap(ContentsOf(init), DataSpaces(init), Contents(ns[|ns| - 1]))
  }

  /** `d`, then `e` from position `p` on, with zeros between them. */
  function AfterGap(d: Bytes, p: nat, e: Bytes): (r: Bytes)
    requires |d| <= p
    ensures |r| == if e == [] then |d| else p + |e|
    ensures r[..|d|] == d
    ensures e != [] ==> r[p..] == e
  {
    if e == [] then d else d + Fill(0, p - |d|) + e
  }

  /** The whole image, before the hashes are appended. */
  function Image(root: Node): (r: Bytes)
    ensures |r| == HeaderSpace(root) + |Contents(root)|
  {
    HeaderImage(root, 0, HeaderSpace(root)) + Contents(root)
  }

  /** Every file of the tree is empty or is copied. */
  predicate AllCopied(n: Node)
    decreases n
  {
    if n.File? then n.content == [] || Copied(|n.content|)
    else forall k :: 0 <= k < |n.children| ==> AllCopied(n.children[k])
  }

  /** The space of siblings grows with every sibling. */
  lemma {:induction false} PrefixSpaces(ns: seq<Node>, k: nat)
    requires k <= |ns|
    ensures HeaderSpaces(ns[..k]) <= HeaderSpaces(ns) && DataSpaces(ns[..k]) <= DataSpaces(ns)
    decreases |ns|
  {
    if k < |ns| {
      var init := ns[..|ns| - 1];
      PrefixSpaces(init, k);
      assert init[..k] == ns[..k];
    } else {
      assert ns[..k] == ns;
    }
  }

  // ---------------------------------------------------------------------------------------
  // Counting
  // ---------------------------------------------------------------------------------------

  function Count(n: Node): (r: nat)
    ensures r >= 1
    decreases n
  {
    1 + if n.File? then 0 else Counts(n.children)
  }

  function Counts(ns: seq<Node>): nat
    decreases ns
  {
    if ns == [] then 0 else Counts(ns[..|ns| - 1]) + Count(ns[|ns| - 1])
  }

  /** The header region holds one header per node and one offset per node that has a parent. */
  lemma {:induction false} HeaderSpaceIsCount(n: Node)
    ensures HeaderSpace(n) == HEADER_SIZE * Count(n) + 8 * (Count(n) - 1)
    decreases n
  {
    if n.Dir? {
      HeaderSpacesAreCounts(n.children);
    }
  }

  lemma {:induction false} HeaderSpacesAreCounts(ns: seq<Node>)
    ensures HeaderSpaces(ns) + 8 * |ns| == HEADER_SIZE * Counts(ns) + 8 * Counts(ns)
    decreases ns
  {
    if ns != [] {
      HeaderSpacesAreCounts(ns[..|ns| - 1]);
      HeaderSpaceIsCount(ns[|ns| - 1]);
    }
  }

  // ---------------------------------------------------------------------------------------
  // When every content is in the image
  // ---------------------------------------------------------------------------------------

  /** If every file is copied, the contents follow each other without a gap and nothing is missing. */
  lemma {:induction false} AllContents(n: Node)
    requires AllCopied(n)
    ensures |Contents(n)| == DataSpace(n)
    decreases n
  {
    if n.Dir? {
      AllContentsOf(n.children);
    }
  }

  lemma {:induction false} AllContentsOf(ns: seq<Node>)
    requires forall k :: 0 <= k < |ns| ==> AllCopied(ns[k])
    ensures |ContentsOf(ns)| == DataSpaces(ns)
    decreases ns
  {
    hide AllCopied;
    if ns != [] {
      var init := ns[..|ns| - 1];
      assert forall k :: 0 <= k < |init| ==> AllCopied(init[k]);
      AllContentsOf(init);
      AllContents(ns[|ns| - 1]);
    }
  }

  /** Below two gigabytes every file is copied. */
  lemma {:induction false} SmallIsCopied(n: Node)
    requires DataSpace(n) < TWO32 / 2
    ensures AllCopied(n)
    decreases n
  {
    if n.Dir? {
      forall k | 0 <= k < |n.children|
        ensures AllCopied(n.children[k])
      {
        OneOfMany(n.children, k);
        SmallIsCopied(n.children[k]);
      }
    }
  }

  lemma {:induction false} OneOfMany(ns: seq<Node>, k: nat)
    requires k < |ns|
    ensures DataSpace(ns[k]) <= DataSpaces(ns)
    decreases |ns|
  {
    hide DataSpace;
    if k < |ns| - 1 {
      OneOfMany(ns[..|ns| - 1], k);
    }
  }

  /** All contents, one after the other. */
  function Joined(n: Node): (r: Bytes)
    ensures |r| == DataSpace(n)
    decreases n
  {
    if n.File? then n.content else JoinedAll(n.children)
  }

  function JoinedAll(ns: seq<Node>): (r: Bytes)
    ensures |r| == DataSpaces(ns)
    decreases ns
  {
    if ns == [] then [] else JoinedAll(ns[..|ns| - 1]) + Joined(ns[|ns| - 1])
  }

  /** The same with zeros in place of what is not copied. */
  function Gapped(n: Node): (r: Bytes)
    ensures |r| == DataSpace(n)
    decreases n
  {
    if n.Dir? then GappedAll(n.children) else if Copied(|n.content|) then n.content else Fill(0, |n.content|)
  }

  function GappedAll(ns: seq<Node>): (r: Bytes)
    ensures |r| == DataSpaces(ns)
    decreases ns
  {
    if ns == [] then [] else GappedAll(ns[..|ns| - 1]) + Gapped(ns[|ns| - 1])
  }

  /** What is not copied is zero, so that a gap does not show. */
  predicate GapsAreZero(n: Node)
    decreases n
  {
    if n.Dir? then GapsAreZeroAll(n.children) else Copied(|n.content|) || n.content == Fill(0, |n.content|)
  }

  predicate GapsAreZeroAll(ns: seq<Node>)
    decreases ns
  {
    ns == [] || (GapsAreZeroAll(ns[..|ns| - 1]) && GapsAreZero(ns[|ns| - 1]))
  }

  /** The contents are cut off after the last file that is copied. */
  lemma {:induction false} ContentsAreGapped(n: Node)
    ensures Contents(n) == Gapped(n)[..|Contents(n)|]
    ensures forall i :: |Contents(n)| <= i < |Gapped(n)| ==> Gapped(n)[i] == 0
    decreases n
  {
    if n.Dir? {
      ContentsAreGappedAll(n.children);
    }
  }

  lemma {:induction false} ContentsAreGappedAll(ns: seq<Node>)
    ensures ContentsOf(ns) == GappedAll(ns)[..|ContentsOf(ns)|]
    ensures forall i :: |ContentsOf(ns)| <= i < |GappedAll(ns)| ==> GappedAll(ns)[i] == 0
    decreases ns
  {
    hide Contents, Gapped, DataSpace;
    if ns != [] {
      var init, last := ns[..|ns| - 1], ns[|ns| - 1];
      ContentsAreGappedAll(init);
      ContentsAreGapped(last);
      GapShows(ContentsOf(init), GappedAll(init), Contents(last), Gapped(last));
    }
  }

  lemma {:induction false} GapShows(d: Bytes, g: Bytes, e: Bytes, h: Bytes)
    requires |d| <= |g| && d == g[..|d|] && forall i :: |d| <= i < |g| ==> g[i] == 0
    requires |e| <= |h| && e == h[..|e|] && forall i :: |e| <= i < |h| ==> h[i] == 0
    ensures var c := AfterGap(d, |g|, e); c == (g + h)[..|c|] && forall i :: |c| <= i < |g + h| ==> (g + h)[i] == 0
  {
    var c := AfterGap(d, |g|, e);
    forall i | 0 <= i < |c|
      ensures c[i] == (g + h)[i]
    {
    }
  }

  lemma {:induction false} GappedIff(n: Node)
    ensures Gapped(n) == Joined(n) <==> GapsAreZero(n)
    decreases n
  {
    if n.Dir? {
      GappedAllIff(n.children);
    }
  }

  lemma {:induction false} GappedAllIff(ns: seq<Node>)
    ensures GappedAll(ns) == JoinedAll(ns) <==> GapsAreZeroAll(ns)
    decreases ns
  {
    hide Gapped, Joined, GapsAreZero;
    if ns != [] {
      var init, last := ns[..|ns| - 1], ns[|ns| - 1];
      GappedAllIff(init);
      GappedIff(last);
      assert GappedAll(ns)[..|GappedAll(init)|] == GappedAll(init) && GappedAll(ns)[|GappedAll(init)|..] == Gapped(last);
      assert JoinedAll(ns)[..|JoinedAll(init)|] == JoinedAll(init) && JoinedAll(ns)[|JoinedAll(init)|..] == Joined(last);
    }
  }

  /** The last file that is not empty is copied. */
  predicate TailCopied(n: Node)
    decreases n
  {
    if n.Dir? then TailCopiedAll(n.children) else n.content == [] || Copied(|n.content|)
  }

  predicate TailCopiedAll(ns: seq<Node>)
    decreases ns
  {
    ns == [] || if DataSpace(ns[|ns| - 1]) == 0 then TailCopiedAll(ns[..|ns| - 1]) else TailCopied(ns[|ns| - 1])
  }

  /** The contents reach the end of their space exactly if the last file that is not empty is copied. */
  lemma {:induction false} TailIff(n: Node)
    ensures |Contents(n)| == DataSpace(n) <==> TailCopied(n)
    decreases n
  {
    if n.Dir? {
      TailAllIff(n.children);
    }
  }

  lemma {:induction false} TailAllIff(ns: seq<Node>)
    ensures |ContentsOf(ns)| == DataSpaces(ns) <==> TailCopiedAll(ns)
    decreases ns
  {
    hide Contents, DataSpace, TailCopied;
    if ns != [] {
      TailAllIff(ns[..|ns| - 1]);
      TailIff(ns[|ns| - 1]);
    }
  }

  /** The image holds all contents of a tree, one after the other, exactly if files that are not
  copied are zero throughout and the last file that is not empty is copied. */
  lemma {:induction false} ContentsKeptIff(n: Node)
    ensures Contents(n) == Joined(n) <==> GapsAreZero(n) && TailCopied(n)
  {
    hide Contents, Joined, Gapped, GapsAreZero, DataSpace, TailCopied;
    ContentsAreGapped(n);
    GappedIff(n);
    TailIff(n);
    assert Gapped(n)[..|Gapped(n)|] == Gapped(n);
  }

  /** A file of two gigabytes of ones is lost. */
  lemma {:induction false} TwoGigabytesAreLost(name: Name, time: nat)
    ensures var n := File(name, time, Fill(1, TWO32 / 2)); Contents(n) == [] && Contents(n) != Joined(n)
  {
  }
}
