/** Where the nodes of a tree lie in its image. */
module Layout {
  import opened ByteString
  import opened OnDisk

  /** A node, the position of its header and the position of its contents. */
  datatype Place = Place(node: Node, h: nat, g: nat)

  /** The header region and the contents of a node lie at their positions. */
  predicate Placed(image: Bytes, p: Place)
  {
    && p.h + HeaderSpace(p.node) <= |image|
    && image[p.h..p.h + HeaderSpace(p.node)] == HeaderImage(p.node, p.h, p.g)
    && ContentsPlaced(image, p.g, Contents(p.node))
  }

  predicate ContentsPlaced(image: Bytes, g: nat, c: Bytes)
  {
    c != [] ==> g + |c| <= |image| && image[g..g + |c|] == c
  }

  /** Likewise for siblings. */
  predicate PlacedAll(image: Bytes, ns: seq<Node>, h: nat, g: nat)
  {
    && h + HeaderSpaces(ns) <= |image|
    && image[h..h + HeaderSpaces(ns)] == HeaderImages(ns, h, g)
    && ContentsPlaced(image, g, ContentsOf(ns))
  }

  function Root(n: Node): Place
  {
    Place(n, 0, HeaderSpace(n))
  }

  function ChildOf(p: Place, k: nat): Place
    requires p.node.Dir? && k < |p.node.children|
  {
    var before := p.node.children[..k];
    Place(p.node.children[k], ChildrenStart(p.node, p.h) + HeaderSpaces(before), p.g + DataSpaces(before))
  }

  /** The image of a tree places its root, whatever is appended to it. */
  lemma {:induction false} RootPlaced(n: Node, extra: Bytes)
    ensures Placed(Image(n) + extra, Root(n))
  {
    hide HeaderImage, Contents, HeaderSpace;
    var image, h := Image(n) + extra, HeaderSpace(n);
    assert image[0..h] == HeaderImage(n, 0, h);
    assert image[h..h + |Contents(n)|] == Contents(n);
  }

  lemma {:induction false} ContentsParts(image: Bytes, g: nat, d: Bytes, p: nat, e: Bytes)
    requires |d| <= p && ContentsPlaced(image, g, AfterGap(d, p, e))
    ensures ContentsPlaced(image, g, d) && ContentsPlaced(image, g + p, e)
  {
    hide AfterGap;
    var c := AfterGap(d, p, e);
    if d != [] {
      assert image[g..g + |d|] == image[g..g + |c|][..|d|];
    }
    if e != [] {
      assert image[g + p..g + p + |e|] == image[g..g + |c|][p..];
    }
  }

  lemma {:induction false} InitAndLast(image: Bytes, ns: seq<Node>, h: nat, g: nat)
    requires ns != [] && PlacedAll(image, ns, h, g)
    ensures var init := ns[..|ns| - 1];
            && PlacedAll(image, init, h, g)
            && Placed(image, Place(ns[|ns| - 1], h + HeaderSpaces(init), g + DataSpaces(init)))
  {
    hide HeaderImage, Contents, HeaderSpace, DataSpace, AfterGap, ContentsPlaced;
    var init, last := ns[..|ns| - 1], ns[|ns| - 1];
    var hl, gl := h + HeaderSpaces(init), g + DataSpaces(init);
    SliceParts(image, h, HeaderImages(init, h, g), HeaderImage(last, hl, gl));
    ContentsParts(image, g, ContentsOf(init), DataSpaces(init), Contents(last));
  }

  lemma {:induction false} SiblingPlaced(image: Bytes, ns: seq<Node>, h: nat, g: nat, k: nat)
    requires k < |ns| && PlacedAll(image, ns, h, g)
    ensures Placed(image, Place(ns[k], h + HeaderSpaces(ns[..k]), g + DataSpaces(ns[..k])))
    decreases |ns|
  {
    hide Placed, PlacedAll, HeaderSpaces, DataSpaces;
    var init := ns[..|ns| - 1];
    InitAndLast(image, ns, h, g);
    if k < |ns| - 1 {
      SiblingPlaced(image, init, h, g, k);
      assert init[..k] == ns[..k];
    }
  }

  lemma {:induction false} SlotAt(ns: seq<Node>, h: nat, k: nat)
    requires k < |ns|
    ensures Slots(ns, h)[8 * k..8 * k + 8] == BigEndian(h + HeaderSpaces(ns[..k]), 8)
    decreases |ns|
  {
    hide BigEndian, HeaderSpaces;
    var init := ns[..|ns| - 1];
    if k < |ns| - 1 {
      SlotAt(init, h, k);
      assert init[..k] == ns[..k];
      assert Slots(ns, h)[8 * k..8 * k + 8] == Slots(init, h)[8 * k..8 * k + 8];
    }
  }

  /** The header region of a directory falls into header, offsets and children. */
  lemma {:induction false} DirectoryParts(image: Bytes, p: Place)
    requires p.node.Dir? && Placed(image, p)
    ensures var s := ChildrenStart(p.node, p.h);
            && PlacedAll(image, p.node.children, s, p.g)
            && image[p.h + HEADER_SIZE..s] == Slots(p.node.children, s)
  {
    hide HeaderImages, Slots, FirstBytes, ContentsPlaced, ContentsOf, HeaderSpaces;
    var n, s := p.node, ChildrenStart(p.node, p.h);
    var a, b, c := FirstBytes(n, p.h, p.g), Slots(n.children, s), HeaderImages(n.children, s, p.g);
    SliceParts(image, p.h, a + b, c);
    SliceParts(image, p.h, a, b);
  }

  lemma {:induction false} HeaderParts(image: Bytes, p: Place)
    requires Placed(image, p)
    ensures p.h + HEADER_SIZE <= |image| && image[p.h..p.h + HEADER_SIZE] == FirstBytes(p.node, p.h, p.g)
  {
    hide HeaderImages, Slots, FirstBytes, ContentsPlaced, ContentsOf, HeaderSpaces;
    var whole := HeaderImage(p.node, p.h, p.g);
    assert whole[..HEADER_SIZE] == FirstBytes(p.node, p.h, p.g);
    assert image[p.h..p.h + HEADER_SIZE] == image[p.h..p.h + HeaderSpace(p.node)][..HEADER_SIZE];
  }

  // ---------------------------------------------------------------------------------------
  // What fits the fields of a header
  // ---------------------------------------------------------------------------------------

  predicate Timed(n: Node)
    decreases n
  {
    n.time < TWO64 && (n.Dir? ==> TimedAll(n.children))
  }

  predicate TimedAll(ns: seq<Node>)
    decreases ns
  {
    ns == [] || (TimedAll(ns[..|ns| - 1]) && Timed(ns[|ns| - 1]))
  }

  /** A node whose header and contents stay below the largest file offset, and whose nodes can be
  counted in a signed 32-bit number. */
  predicate Fits(p: Place)
  {
    && Timed(p.node)
    && p.h + HeaderSpace(p.node) < TWO64 / 2 && p.g + DataSpace(p.node) < TWO64 / 2
    && Count(p.node) < TWO32 / 2
  }

  lemma {:induction false} TimedChild(ns: seq<Node>, k: nat)
    requires k < |ns| && TimedAll(ns)
    ensures Timed(ns[k])
    decreases |ns|
  {
    hide Timed;
    if k < |ns| - 1 {
      TimedChild(ns[..|ns| - 1], k);
    }
  }

  lemma {:induction false} CountChild(ns: seq<Node>, k: nat)
    requires k < |ns|
    ensures Count(ns[k]) <= Counts(ns)
    decreases |ns|
  {
    hide Count;
    if k < |ns| - 1 {
      CountChild(ns[..|ns| - 1], k);
    }
  }

  lemma {:induction false} CountsLength(ns: seq<Node>)
    ensures |ns| <= Counts(ns)
    decreases |ns|
  {
    hide Count;
    if ns != [] {
      CountsLength(ns[..|ns| - 1]);
    }
  }

  lemma {:induction false} SpacesChild(ns: seq<Node>, k: nat)
    requires k < |ns|
    ensures HeaderSpaces(ns[..k]) + HeaderSpace(ns[k]) <= HeaderSpaces(ns)
    ensures DataSpaces(ns[..k]) + DataSpace(ns[k]) <= DataSpaces(ns)
  {
    hide HeaderSpace, DataSpace;
    assert ns[..k + 1][..k] == ns[..k];
    PrefixSpaces(ns, k + 1);
  }

  lemma {:induction false} ChildFits(p: Place, k: nat)
    requires p.node.Dir? && k < |p.node.children| && Fits(p)
    ensures Fits(ChildOf(p, k))
  {
    hide HeaderSpaces, DataSpaces, Counts, TimedAll;
    TimedChild(p.node.children, k);
    CountChild(p.node.children, k);
    SpacesChild(p.node.children, k);
    TimedUnfold(p.node);
  }

  lemma {:induction false} TimedUnfold(n: Node)
    requires n.Dir? && Timed(n)
    ensures TimedAll(n.children)
  {
  }

  /** Reading the header of a placed node gives exactly what was known about the node. */
  lemma {:induction false} HeaderRead(image: Bytes, p: Place)
    requires Placed(image, p) && Fits(p)
    ensures p.h + HEADER_SIZE <= |image|
    ensures ParseHeader(image[p.h..p.h + HEADER_SIZE]) == HeaderOf(p.node, p.h, p.g)
  {
    hide Placed, HeaderBytes, ParseHeader, Counts, HeaderSpaces, DataSpaces, TimedAll;
    HeaderParts(image, p);
    var hd := HeaderOf(p.node, p.h, p.g);
    if p.node.Dir? {
      CountsLength(p.node.children);
    }
    HeaderRoundTrip(p.node.name, hd.length, hd.time, hd.offset, hd.kind);
  }

  /** Following an offset of a placed directory leads to the placed child. */
  lemma {:induction false} ChildRead(image: Bytes, p: Place, k: nat)
    requires p.node.Dir? && k < |p.node.children| && Placed(image, p) && Fits(p)
    ensures var at := p.h + HEADER_SIZE + 8 * k;
            && at + 8 <= |image|
            && FromBigEndian(image[at..at + 8]) == ChildOf(p, k).h
            && p.h < ChildOf(p, k).h < |image|
    ensures Placed(image, ChildOf(p, k)) && Fits(ChildOf(p, k))
  {
    hide Placed, PlacedAll, BigEndian, FromBigEndian, HeaderSpaces, DataSpaces, Slots, Counts, Timed;
    var ns, s, at := p.node.children, ChildrenStart(p.node, p.h), p.h + HEADER_SIZE + 8 * k;
    DirectoryParts(image, p);
    SiblingPlaced(image, ns, s, p.g, k);
    SlotAt(ns, s, k);
    ChildFits(p, k);
    PlacedBounds(image, p);
    PlacedBounds(image, ChildOf(p, k));
    SliceSlice(image, p.h + HEADER_SIZE, s, 8 * k, 8 * k + 8);
    RoundTrip64(ChildOf(p, k).h);
  }

  lemma {:induction false} PlacedBounds(image: Bytes, p: Place)
    requires Placed(image, p)
    ensures p.h + HeaderSpace(p.node) <= |image|
  {
  }

  /** The content of a file that is copied lies where its header says; that of one that is not is
  absent from the image. */
  lemma {:induction false} ContentRead(image: Bytes, p: Place)
    requires p.node.File? && Placed(image, p)
    ensures Copied(|p.node.content|) ==>
              p.g + |p.node.content| <= |image| && image[p.g..p.g + |p.node.content|] == p.node.content
  {
  }
}
