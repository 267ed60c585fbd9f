/** The extents of an image: no two nodes of a tree share bytes, except that the header region of a
directory holds those of its entries. */
module Extents {
  import opened ByteString
  import opened OnDisk
  import opened Layout
  import opened Mount

  /** The bytes that belong to the header of a node alone: the header and the offsets of its entries. */
  function OwnSize(n: Node): nat
  {
    HEADER_SIZE + if n.File? then 0 else 8 * |n.children|
  }

  /** Headers and contents of the first place end before those of the second start. */
  predicate Precedes(p: Place, q: Place)
  {
    p.h + HeaderSpace(p.node) <= q.h && p.g + DataSpace(p.node) <= q.g
  }

  predicate Apart(p: Place, q: Place)
  {
    Precedes(p, q) || Precedes(q, p)
  }

  /** Headers and contents of the second place lie in those of the first. */
  predicate Encloses(p: Place, q: Place)
  {
    && p.h <= q.h && q.h + HeaderSpace(q.node) <= p.h + HeaderSpace(p.node)
    && p.g <= q.g && q.g + DataSpace(q.node) <= p.g + DataSpace(p.node)
  }

  lemma {:induction false} ChildEnclosed(p: Place, k: nat)
    requires p.node.Dir? && k < |p.node.children|
    ensures Encloses(p, ChildOf(p, k)) && p.h + OwnSize(p.node) <= ChildOf(p, k).h
  {
    hide HeaderSpaces, DataSpaces;
    SpacesChild(p.node.children, k);
  }

  lemma {:induction false} TrailEnclosed(p: Place, ks: seq<nat>)
    requires IsTrail(p.node, ks)
    ensures Encloses(p, Follow(p, ks))
    ensures ks != [] ==> p.h + OwnSize(p.node) <= Follow(p, ks).h
    decreases |ks|
  {
    hide HeaderSpace, DataSpace, ChildOf;
    if ks != [] {
      ChildNode(p, ks[0]);
      ChildEnclosed(p, ks[0]);
      TrailEnclosed(ChildOf(p, ks[0]), ks[1..]);
    }
  }

  lemma {:induction false} SiblingsApart(p: Place, i: nat, j: nat)
    requires p.node.Dir? && i < j < |p.node.children|
    ensures Precedes(ChildOf(p, i), ChildOf(p, j))
  {
    hide HeaderSpaces, DataSpaces, HeaderSpace, DataSpace;
    var ns := p.node.children;
    SpacesChild(ns[..j], i);
    assert ns[..j][..i] == ns[..i];
  }

  lemma {:induction false} ApartWithin(p: Place, q: Place, p': Place, q': Place)
    requires Precedes(p, q) && Encloses(p, p') && Encloses(q, q')
    ensures Precedes(p', q')
  {
  }

  /** Of two trails, one that goes on from the other leads into it, behind its own header and offsets;
  otherwise the places share nothing. */
  lemma {:induction false} TwoPlaces(p: Place, ks: seq<nat>, js: seq<nat>)
    requires IsTrail(p.node, ks) && IsTrail(p.node, js)
    ensures var q, r := Follow(p, ks), Follow(p, js);
            if ks <= js then Encloses(q, r) && (ks < js ==> q.h + OwnSize(q.node) <= r.h)
            else if js <= ks then Encloses(r, q) && r.h + OwnSize(r.node) <= q.h
            else Apart(q, r)
    decreases |ks|
  {
    hide HeaderSpace, DataSpace, ChildOf, Encloses, Precedes;
    if ks == [] {
      TrailEnclosed(p, js);
    } else if js == [] {
      TrailEnclosed(p, ks);
    } else if ks[0] == js[0] {
      ChildNode(p, ks[0]);
      TwoPlaces(ChildOf(p, ks[0]), ks[1..], js[1..]);
      assert ks == [ks[0]] + ks[1..] && js == [js[0]] + js[1..];
    } else {
      ChildNode(p, ks[0]);
      ChildNode(p, js[0]);
      TrailEnclosed(ChildOf(p, ks[0]), ks[1..]);
      TrailEnclosed(ChildOf(p, js[0]), js[1..]);
      if ks[0] < js[0] {
        SiblingsApart(p, ks[0], js[0]);
        ApartWithin(ChildOf(p, ks[0]), ChildOf(p, js[0]), Follow(p, ks), Follow(p, js));
      } else {
        SiblingsApart(p, js[0], ks[0]);
        ApartWithin(ChildOf(p, js[0]), ChildOf(p, ks[0]), Follow(p, js), Follow(p, ks));
      }
    }
  }

  /** No trail goes on from a plain file. */
  lemma {:induction false} FilesEndTrails(p: Place, ks: seq<nat>, js: seq<nat>)
    requires IsTrail(p.node, ks) && IsTrail(p.node, js) && Follow(p, ks).node.File? && ks <= js
    ensures ks == js
    decreases |ks|
  {
    hide ChildOf;
    if ks != [] {
      ChildNode(p, ks[0]);
      FilesEndTrails(ChildOf(p, ks[0]), ks[1..], js[1..]);
      assert ks == [ks[0]] + ks[1..] && js == [js[0]] + js[1..];
    }
  }

  /** The contents of different files of an image are disjoint, and lie behind all headers and within
  the space of the contents. */
  lemma {:induction false} FileExtents(root: Node, ks: seq<nat>, js: seq<nat>)
    requires IsTrail(root, ks) && IsTrail(root, js) && ks != js
    requires Follow(Root(root), ks).node.File? && Follow(Root(root), js).node.File?
    ensures var q, r := Follow(Root(root), ks), Follow(Root(root), js);
            && (q.g + |q.node.content| <= r.g || r.g + |r.node.content| <= q.g)
            && HeaderSpace(root) <= q.g && q.g + |q.node.content| <= HeaderSpace(root) + DataSpace(root)
  {
    hide HeaderSpace, Follow, IsTrail;
    TwoPlaces(Root(root), ks, js);
    TrailEnclosed(Root(root), ks);
    if ks <= js {
      FilesEndTrails(Root(root), ks, js);
    } else if js <= ks {
      FilesEndTrails(Root(root), js, ks);
    }
  }

  // ---------------------------------------------------------------------------------------
  // The image, byte by byte
  // ---------------------------------------------------------------------------------------

  lemma {:induction false} FollowPlaced(image: Bytes, p: Place, ks: seq<nat>)
    requires Placed(image, p) && IsTrail(p.node, ks)
    ensures Placed(image, Follow(p, ks))
    decreases |ks|
  {
    hide Placed, PlacedAll, HeaderSpaces, DataSpaces, Slots;
    if ks != [] {
      DirectoryParts(image, p);
      SiblingPlaced(image, p.node.children, ChildrenStart(p.node, p.h), p.g, ks[0]);
      FollowPlaced(image, ChildOf(p, ks[0]), ks[1..]);
    }
  }

  /** A big-endian number of 64 bits lies at a position, its most significant byte first. */
  ghost predicate NumberAt(image: Bytes, at: nat, v: nat)
  {
    at + 8 <= |image| && forall j :: at <= j < at + 8 ==> image[j] == v / Pow256(at + 7 - j) % 256
  }

  lemma {:induction false} NumberLies(image: Bytes, at: nat, v: nat)
    requires at + 8 <= |image| && image[at..at + 8] == BigEndian(v, 8)
    ensures NumberAt(image, at, v)
  {
    hide BigEndian, Pow256;
    forall j | at <= j < at + 8
      ensures image[j] == v / Pow256(at + 7 - j) % 256
    {
      BigEndianAt(v, 8, j - at);
      assert image[at..at + 8][j - at] == image[j];
    }
  }

  /** The name at a position, then a zero byte, then spaces up to 256 bytes. */
  predicate NameAt(image: Bytes, at: nat, name: Name)
  {
    && at + 256 <= |image|
    && image[at..at + |name|] == name
    && image[at + |name|] == 0
    && (forall j :: at + |name| < j < at + 256 ==> image[j] == 32)
  }

  lemma {:induction false} NameLies(image: Bytes, at: nat, name: Name)
    requires at + 256 <= |image| && image[at..at + 256] == SpacePad(name)
    ensures NameAt(image, at, name)
  {
    var s := image[at..at + 256];
    assert forall j :: at <= j < at + 256 ==> image[j] == s[j - at];
  }

  /** The last four bytes of a header: zero for a directory, one for a plain file. */
  lemma {:induction false} KindLies(image: Bytes, at: nat, kind: nat)
    requires at + 4 <= |image| && image[at..at + 4] == BigEndian(kind, 4) && kind < 256
    ensures image[at] == image[at + 1] == image[at + 2] == 0 && image[at + 3] == kind
  {
    hide BigEndian;
    BigEndianAt(kind, 4, 0);
    BigEndianAt(kind, 4, 1);
    BigEndianAt(kind, 4, 2);
    BigEndianAt(kind, 4, 3);
    assert Pow256(0) == 1 && Pow256(1) == 256 && Pow256(2) == 65536 && Pow256(3) == 16777216;
    var s := image[at..at + 4];
    assert s[0] == image[at] && s[1] == image[at + 1] && s[2] == image[at + 2] && s[3] == image[at + 3];
  }

  /** The 284 bytes of a header at their positions. */
  ghost predicate HeaderLies(image: Bytes, p: Place)
  {
    && NameAt(image, p.h, p.node.name)
    && NumberAt(image, p.h + 256, if p.node.File? then |p.node.content| else |p.node.children|)
    && NumberAt(image, p.h + 264, p.node.time)
    && NumberAt(image, p.h + 272, if p.node.File? then p.g else p.h + 284)
    && p.h + 284 <= |image|
    && image[p.h + 280] == image[p.h + 281] == image[p.h + 282] == 0
    && image[p.h + 283] == if p.node.File? then 1 else 0
  }

  lemma {:induction false} HeaderBytesLie(image: Bytes, p: Place)
    requires Placed(image, p)
    ensures HeaderLies(image, p)
  {
    hide Placed, SpacePad, BigEndian, NameAt, NumberAt;
    HeaderParts(image, p);
    var hd := HeaderOf(p.node, p.h, p.g);
    var a := SpacePad(p.node.name);
    var b, c, d, e := BigEndian(hd.length, 8), BigEndian(hd.time, 8), BigEndian(hd.offset, 8), BigEndian(hd.kind, 4);
    assert image[p.h..p.h + 284] == a + b + c + d + e;
    SliceParts(image, p.h, a + b + c + d, e);
    SliceParts(image, p.h, a + b + c, d);
    SliceParts(image, p.h, a + b, c);
    SliceParts(image, p.h, a, b);
    NameLies(image, p.h, p.node.name);
    NumberLies(image, p.h + 256, hd.length);
    NumberLies(image, p.h + 264, hd.time);
    NumberLies(image, p.h + 272, hd.offset);
    KindLies(image, p.h + 280, hd.kind);
  }

  lemma {:induction false} OffsetLies(image: Bytes, p: Place, k: nat)
    requires Placed(image, p) && p.node.Dir? && k < |p.node.children|
    ensures NumberAt(image, p.h + 284 + 8 * k, ChildOf(p, k).h)
  {
    hide Placed, PlacedAll, BigEndian, HeaderSpaces, DataSpaces, Slots, NumberAt;
    var s := ChildrenStart(p.node, p.h);
    DirectoryParts(image, p);
    PlacedBounds(image, p);
    SlotAt(p.node.children, s, k);
    SliceSlice(image, p.h + 284, s, 8 * k, 8 * k + 8);
    NumberLies(image, p.h + 284 + 8 * k, ChildOf(p, k).h);
  }

  /** Where the headers and the contents of a node lie, in numbers: the contents of a tree start after
  one header of 284 bytes for each node and one offset of 8 bytes for each node but the root; an entry
  follows the offsets of its directory and the headers of the entries before it. */
  lemma {:induction false} Positions(root: Node, p: Place, k: nat)
    requires p.node.Dir? && k < |p.node.children|
    ensures Root(root) == Place(root, 0, 284 * Count(root) + 8 * (Count(root) - 1))
    ensures ChildOf(p, k).h == p.h + 284 + 8 * (|p.node.children| - k) + 292 * Counts(p.node.children[..k])
    ensures ChildOf(p, k).g == p.g + |JoinedAll(p.node.children[..k])|
  {
    hide HeaderSpaces, Counts, Count, DataSpaces;
    HeaderSpaceIsCount(root);
    HeaderSpacesAreCounts(p.node.children[..k]);
  }

  /** Every node of a tree has its header, its offsets and its content in the image where they belong,
  whatever is appended to the image. */
  lemma {:induction false} ImageBytes(root: Node, extra: Bytes, ks: seq<nat>)
    requires IsTrail(root, ks)
    ensures var image, p := Image(root) + extra, Follow(Root(root), ks);
            && HeaderLies(image, p)
            && (p.node.Dir? ==> forall k :: 0 <= k < |p.node.children| ==> NumberAt(image, p.h + 284 + 8 * k, ChildOf(p, k).h))
            && (p.node.File? && 0 < |p.node.content| % 4294967296 < 2147483648 ==>
                  p.g + |p.node.content| <= |image| && image[p.g..p.g + |p.node.content|] == p.node.content)
  {
    hide Placed, NumberAt, HeaderLies, ChildOf, Follow, Image;
    var image, p := Image(root) + extra, Follow(Root(root), ks);
    RootPlaced(root, extra);
    FollowPlaced(image, Root(root), ks);
    HeaderBytesLie(image, p);
    if p.node.Dir? {
      forall k | 0 <= k < |p.node.children|
        ensures NumberAt(image, p.h + 284 + 8 * k, ChildOf(p, k).h)
      {
        OffsetLies(image, p, k);
      }
    } else {
      ContentRead(image, p);
    }
  }
}
