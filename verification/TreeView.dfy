/** The second reader of the image: it prints the tree from the headers alone, reading each header
as one in-memory structure. */
module TreeView {
  import opened ByteString
  import opened OnDisk
  import opened Layout
  import T = TreeBuilder

  /** The in-memory header has four bytes of padding at its end. */
  const STRUCT_SIZE := 288

  datatype Line = Line(depth: nat, shown: Bytes, header: Header)

  // ---------------------------------------------------------------------------------------
  // Trimming
  // ---------------------------------------------------------------------------------------

  /** The position of the first byte that is not a space, or the length. */
  function FirstInk(s: Bytes): (r: nat)
    ensures r <= |s| && (r < |s| ==> s[r] != SPACE)
  {
    if s == [] || s[0] != SPACE then 0 else 1 + FirstInk(s[1..])
  }

  /** The position after the last byte that is not a space, or zero. */
  function LastInk(s: Bytes): (r: nat)
    ensures r <= |s| && (r > 0 ==> s[r - 1] != SPACE)
  {
    if s == [] || s[|s| - 1] != SPACE then |s| else LastInk(s[..|s| - 1])
  }

  function Trim(s: Bytes): Bytes
  {
    var first, last := FirstInk(s), LastInk(s);
    if first < last then s[first..last] else []
  }

  /** A name is shown as it is exactly if it neither starts nor ends with a space. */
  lemma {:induction false} TrimIff(s: Bytes)
    ensures Trim(s) == s <==> (s == [] || (s[0] != SPACE && s[|s| - 1] != SPACE))
  {
    if s != [] {
      assert FirstInk(s) == 0 <==> s[0] != SPACE;
      assert LastInk(s) == |s| <==> s[|s| - 1] != SPACE;
      if Trim(s) == s {
        assert |Trim(s)| == |s|;
      }
    }
  }

  /** A leading space is lost. */
  lemma {:induction false} LeadingSpaceIsLost()
    ensures Trim([SPACE, 97]) == [97] && Trim([SPACE, 97]) != [SPACE, 97]
  {
    assert [SPACE, 97][1..] == [97];
    assert FirstInk([97]) == 0 && FirstInk([SPACE, 97]) == 1 && LastInk([SPACE, 97]) == 2;
  }

  // ---------------------------------------------------------------------------------------
  // The printed tree
  // ---------------------------------------------------------------------------------------

  function LineOf(p: Place, depth: nat): Line
  {
    var header := HeaderOf(p.node, p.h, p.g);
    Line(depth, Trim(header.name), header)
  }

  /** The lines of a node and of everything below it. */
  function Printed(p: Place, depth: nat): seq<Line>
    decreases p.node
  {
    [LineOf(p, depth)] + if p.node.File? then [] else PrintedEntries(p, |p.node.children|, depth + 1)
  }

  function PrintedEntries(p: Place, k: nat, depth: nat): seq<Line>
    requires p.node.Dir? && k <= |p.node.children|
    decreases p.node, k
  {
    if k == 0 then [] else PrintedEntries(p, k - 1, depth) + Printed(ChildOf(p, k - 1), depth)
  }

  class Printer {
    const input: InputFile
    var output: seq<Line>

    constructor (image: Bytes)
      ensures input.bytes == image && output == [] && fresh(input)
    {
      input := new InputFile(image);
      output := [];
    }

    /** Reads a header as one block and takes its fields apart. */
    method ReadHeader(offset: nat) returns (header: Header)
      requires offset + STRUCT_SIZE <= |input.bytes|
      modifies input
      ensures header == ParseHeader(input.bytes[offset..offset + HEADER_SIZE])
    {
      hide FromBigEndian, CString;
      input.Seek(offset);
      var raw := input.Read(STRUCT_SIZE);
      header := Header(CString(raw[..256]), FromBigEndian(raw[256..264]), FromBigEndian(raw[264..272]),
                       FromBigEndian(raw[272..280]), FromBigEndian(raw[280..284]));
      ghost var s := input.bytes[offset..offset + HEADER_SIZE];
      assert raw[..HEADER_SIZE] == s;
      assert raw[..256] == s[..256] && raw[256..264] == s[256..264] && raw[264..272] == s[264..272];
      assert raw[272..280] == s[272..280] && raw[280..284] == s[280..284];
    }

    method ReadOffset(offset: nat) returns (v: nat)
      requires offset + 8 <= |input.bytes|
      modifies input
      ensures v == FromBigEndian(input.bytes[offset..offset + 8])
    {
      input.Seek(offset);
      v := input.Read64();
    }

    /** Prints a node and everything below it, every directory before its entries. */
    method PrintMetadata(hdr: Header, depth: nat, ghost at: Place)
      requires Placed(input.bytes, at) && Fits(at) && hdr == HeaderOf(at.node, at.h, at.g)
      requires at.h + HeaderSpace(at.node) + 4 <= |input.bytes|
      modifies this, input
      ensures output == old(output) + Printed(at, depth)
      decreases at.node
    {
      hide Placed, Fits, FromBigEndian, ParseHeader, HeaderSpace, Trim, ChildOf, PrintedEntries;
      output := output + [Line(depth, Trim(hdr.name), hdr)];
      if hdr.kind == PLAIN_FILE {
        return;
      }
      if hdr.kind == DIRECTORY {
        var i := 0;
        NoEntries(at, depth + 1);
        while i < hdr.length
          invariant 0 <= i <= hdr.length == |at.node.children|
          invariant output == old(output) + [LineOf(at, depth)] + PrintedEntries(at, i, depth + 1)
        {
          EntryRead(input.bytes, at, i);
          var next := ReadOffset(hdr.offset + i * 8);
          var sub := ReadHeader(next);
          PrintMetadata(sub, depth + 1, ChildOf(at, i));
          NextEntry(at, i, depth + 1);
          i := i + 1;
        }
      }
    }
  }

  lemma {:induction false} NoEntries(p: Place, depth: nat)
    requires p.node.Dir?
    ensures PrintedEntries(p, 0, depth) == []
  {
  }

  lemma {:induction false} NextEntry(p: Place, k: nat, depth: nat)
    requires p.node.Dir? && k < |p.node.children|
    ensures PrintedEntries(p, k + 1, depth) == PrintedEntries(p, k, depth) + Printed(ChildOf(p, k), depth)
  {
    hide Printed;
  }

  lemma {:induction false} EntryRead(image: Bytes, p: Place, k: nat)
    requires p.node.Dir? && k < |p.node.children| && Placed(image, p) && Fits(p)
    requires p.h + HeaderSpace(p.node) + 4 <= |image|
    ensures var c, at := ChildOf(p, k), p.h + HEADER_SIZE + 8 * k;
            && c.node == p.node.children[k]
            && at + 8 <= |image| && FromBigEndian(image[at..at + 8]) == c.h && p.h < c.h
            && Placed(image, c) && Fits(c)
            && c.h + HeaderSpace(c.node) + 4 <= |image|
            && ParseHeader(image[c.h..c.h + HEADER_SIZE]) == HeaderOf(c.node, c.h, c.g)
  {
    hide Placed, Fits, FromBigEndian, ParseHeader, HeaderSpaces;
    ChildRead(image, p, k);
    SpacesChild(p.node.children, k);
    HeaderRead(image, ChildOf(p, k));
  }

  // ---------------------------------------------------------------------------------------
  // The printed tree is the walk
  // ---------------------------------------------------------------------------------------

  /** What is left of a string when the spaces at both ends are removed, by position. */
  ghost predicate WithoutOuterSpaces(s: Bytes, r: Bytes)
  {
    exists i, j :: SpacesAround(s, r, i, j)
  }

  predicate SpacesAround(s: Bytes, r: Bytes, i: nat, j: nat)
  {
    && i <= j <= |s| && r == s[i..j]
    && (forall k :: 0 <= k < i ==> s[k] == 32) && (forall k :: j <= k < |s| ==> s[k] == 32)
    && (r == [] || (r[0] != 32 && r[|r| - 1] != 32))
  }

  lemma {:induction false} FirstInkSpaces(s: Bytes)
    ensures forall k :: 0 <= k < FirstInk(s) ==> s[k] == SPACE
    decreases |s|
  {
    if s != [] && s[0] == SPACE {
      FirstInkSpaces(s[1..]);
      forall k | 0 <= k < FirstInk(s)
        ensures s[k] == SPACE
      {
        assert k == 0 || s[k] == s[1..][k - 1];
      }
    }
  }

  lemma {:induction false} LastInkSpaces(s: Bytes)
    ensures forall k :: LastInk(s) <= k < |s| ==> s[k] == SPACE
    decreases |s|
  {
    if s != [] && s[|s| - 1] == SPACE {
      LastInkSpaces(s[..|s| - 1]);
    }
  }

  /** Trimming removes the spaces at both ends and nothing else. */
  lemma {:induction false} TrimRemoves(s: Bytes)
    ensures WithoutOuterSpaces(s, Trim(s))
  {
    hide FirstInk, LastInk;
    FirstInkSpaces(s);
    LastInkSpaces(s);
    var first, last := FirstInk(s), LastInk(s);
    if first < last {
      assert SpacesAround(s, Trim(s), first, last);
    } else {
      forall k | 0 <= k < |s|
        ensures s[k] == 32
      {
      }
      assert SpacesAround(s, [], |s|, |s|);
    }
  }

  /** How many slashes a string holds. */
  function Slashes(s: Bytes): nat
  {
    if s == [] then 0 else Slashes(s[..|s| - 1]) + if s[|s| - 1] == 47 then 1 else 0
  }

  lemma {:induction false} SlashesAppend(s: Bytes, t: Bytes)
    ensures Slashes(s + t) == Slashes(s) + Slashes(t)
    decreases |t|
  {
    if t == [] {
      assert s + t == s;
    } else {
      SlashesAppend(s, t[..|t| - 1]);
      assert (s + t)[..|s + t| - 1] == s + t[..|t| - 1];
    }
  }

  /** No entry below the root has a slash in its name. */
  predicate NoSlashesBelow(n: Node)
    decreases n
  {
    n.Dir? ==> NoSlashesIn(n.children)
  }

  predicate NoSlashesIn(ns: seq<Node>)
    decreases ns
  {
    ns == [] ||
    (NoSlashesIn(ns[..|ns| - 1]) && Slashes(ns[|ns| - 1].name) == 0 && NoSlashesBelow(ns[|ns| - 1]))
  }

  /** A line tells what the callback of the tree walk told: what it shows is the name without the spaces
  around it. */
  ghost predicate Tells(l: Line, v: T.Visit)
  {
    && l.header.name == T.ParseName(v.path)
    && WithoutOuterSpaces(T.ParseName(v.path), l.shown)
    && l.header.time == v.time
    && l.header.kind == (if v.kind == T.Directory then 0 else 1)
    && l.header.length == if v.kind == T.Directory then v.entries else |v.content|
  }

  ghost predicate TellsAll(ls: seq<Line>, vs: seq<T.Visit>)
  {
    |ls| == |vs| && forall i :: 0 <= i < |ls| ==> Tells(ls[i], vs[i])
  }

  lemma {:induction false} TellsAppend(ls: seq<Line>, vs: seq<T.Visit>, ls': seq<Line>, vs': seq<T.Visit>)
    requires TellsAll(ls, vs) && TellsAll(ls', vs')
    ensures TellsAll(ls + ls', vs + vs')
  {
    hide Tells;
  }

  /** Every line is as deep as its path has components beyond that of the root. */
  ghost predicate DepthsTell(ls: seq<Line>, vs: seq<T.Visit>, base: int)
  {
    |ls| == |vs| && forall i :: 0 <= i < |ls| ==> ls[i].depth == Slashes(vs[i].path) + base
  }

  lemma {:induction false} DepthsAppend(ls: seq<Line>, vs: seq<T.Visit>, ls': seq<Line>, vs': seq<T.Visit>, base: int)
    requires DepthsTell(ls, vs, base) && DepthsTell(ls', vs', base)
    ensures DepthsTell(ls + ls', vs + vs', base)
  {
    hide Slashes;
  }

  /** The printed lines follow the callbacks of the walk from which the image was mastered. */
  lemma {:induction false} PrintsTheWalk(p: Place, n: Node, depth: nat, path: Bytes)
    requires p.node == T.Renamed(n) && T.ParseName(path) == T.ParseName(n.name)
    ensures TellsAll(Printed(p, depth), T.Walk(n, path))
    ensures NoSlashesBelow(n) ==> DepthsTell(Printed(p, depth), T.Walk(n, path), depth - Slashes(path))
    decreases n
  {
    hide T.ParseName, T.WalkAll, TellsAll, PrintedEntries, Trim, T.RenamedAll, DepthsTell, NoSlashesIn, Slashes;
    FirstLine(p, n, depth, path);
    if n.Dir? {
      EntriesTell(p, n, |n.children|, depth + 1, path);
      assert n.children[..|n.children|] == n.children;
      var ls, vs := PrintedEntries(p, |n.children|, depth + 1), T.WalkAll(n.children, path);
      TellsAppend([LineOf(p, depth)], [T.VisitOf(n, path)], ls, vs);
      if NoSlashesBelow(n) {
        DepthsAppend([LineOf(p, depth)], [T.VisitOf(n, path)], ls, vs, depth - Slashes(path));
      }
    } else {
      assert T.Walk(n, path) == [T.VisitOf(n, path)] && Printed(p, depth) == [LineOf(p, depth)];
    }
  }

  lemma {:induction false} FirstLine(p: Place, n: Node, depth: nat, path: Bytes)
    requires p.node == T.Renamed(n) && T.ParseName(path) == T.ParseName(n.name)
    ensures TellsAll([LineOf(p, depth)], [T.VisitOf(n, path)])
    ensures DepthsTell([LineOf(p, depth)], [T.VisitOf(n, path)], depth - Slashes(path))
  {
    hide T.ParseName, Trim, T.RenamedAll, WithoutOuterSpaces, Slashes;
    TrimRemoves(p.node.name);
  }

  lemma {:induction false} EntriesTell(p: Place, n: Node, k: nat, depth: nat, path: Bytes)
    requires p.node == T.Renamed(n) && n.Dir? && k <= |n.children|
    ensures TellsAll(PrintedEntries(p, k, depth), T.WalkAll(n.children[..k], path))
    ensures NoSlashesIn(n.children[..k]) ==>
              DepthsTell(PrintedEntries(p, k, depth), T.WalkAll(n.children[..k], path), depth - 1 - Slashes(path))
    decreases n, k
  {
    hide T.ParseName, T.Walk, Printed, Tells, T.Below, T.RenamedAll, Slashes, NoSlashesBelow;
    if k > 0 {
      hide TellsAll, DepthsTell, NoSlashesIn;
      var done, child := n.children[..k - 1], n.children[k - 1];
      EntriesTell(p, n, k - 1, depth, path);
      T.NameBelow(path, child.name);
      T.RenamedAt(n.children, k - 1);
      PrintsTheWalk(ChildOf(p, k - 1), child, depth, T.Below(path, child.name));
      assert n.children[..k] == done + [child];
      T.WalkSnoc(done, child, path);
      var ls, vs := PrintedEntries(p, k - 1, depth), T.WalkAll(done, path);
      var ls', vs' := Printed(ChildOf(p, k - 1), depth), T.Walk(child, T.Below(path, child.name));
      TellsAppend(ls, vs, ls', vs');
      NoSlashesSnoc(done, child);
      SlashesBelow(path, child.name);
      if NoSlashesIn(done + [child]) {
        DepthsAppend(ls, vs, ls', vs', depth - 1 - Slashes(path));
      }
    }
  }

  lemma {:induction false} NoSlashesSnoc(ns: seq<Node>, n: Node)
    ensures NoSlashesIn(ns + [n]) == (NoSlashesIn(ns) && Slashes(n.name) == 0 && NoSlashesBelow(n))
  {
    hide Slashes, NoSlashesBelow;
    assert (ns + [n])[..|ns|] == ns;
  }

  lemma {:induction false} SlashesBelow(path: Bytes, name: Bytes)
    ensures Slashes(T.Below(path, name)) == Slashes(path) + 1 + Slashes(name)
  {
    SlashesAppend(path + [SLASH], name);
    SlashesAppend(path, [SLASH]);
    assert [SLASH][..0] == [];
    assert Slashes([]) == 0;
  }
}
