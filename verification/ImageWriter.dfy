/** Writing the image of a file tree: two cursors move through the output, one over the headers
and one over the contents, and the offset of each child is patched into its parent once the
child has been written. */
module ImageWriter {
  import opened ByteString
  import opened OnDisk
  import opened TreeBuilder

  const COPY_BLOCK := 1024

  /** An unsigned number converted to a signed 32-bit one. */
  function Int32(n: nat): (r: int)
    ensures -(TWO32 / 2) <= r < TWO32 / 2
  {
    var m := n % TWO32;
    if m < TWO32 / 2 then m else m - TWO32
  }

  // ---------------------------------------------------------------------------------------
  // How the writes of one directory combine
  // ---------------------------------------------------------------------------------------

  /** The output after a header run at `h`, a header run at `s` and contents at `g`. */
  function Layered(file: Bytes, h: nat, a: Bytes, s: nat, b: Bytes, g: nat, c: Bytes): Bytes
  {
    WriteAt(WriteAt(WriteAt(file, h, a), s, b), g, c)
  }

  /** A write past the end of a file that itself ends in a write leaves zeros between the two. */
  lemma {:induction false} WriteGap(file: Bytes, g: nat, d: Bytes, p: nat, e: Bytes)
    requires |file| <= g && |d| <= p
    ensures WriteAt(WriteAt(file, g, d), g + p, e) == WriteAt(file, g, AfterGap(d, p, e))
  {
    hide WriteAt;
    if e != [] {
      var m := WriteAt(file, g, d);
      var l, r := WriteAt(m, g + p, e), WriteAt(file, g, AfterGap(d, p, e));
      WrittenAt(file, g, d);
      WrittenAt(m, g + p, e);
      WrittenAt(file, g, AfterGap(d, p, e));
      forall i | 0 <= i < |l|
        ensures l[i] == r[i]
      {
      }
    }
  }

  /** One child after the others: its headers, its contents and its offset extend the three runs. */
  lemma {:induction false} OneMore(file: Bytes, h: nat, a: Bytes, s: nat, b: Bytes, g: nat, c: Bytes,
                                   a': Bytes, b': Bytes, p: nat, c': Bytes)
    requires h + |a| + |a'| <= s && s + |b| + |b'| <= g && |c| <= p && |file| <= g
    ensures WriteAt(WriteAt(WriteAt(Layered(file, h, a, s, b, g, c), s + |b|, b'), g + p, c'), h + |a|, a') ==
            Layered(file, h, a + a', s, b + b', g, AfterGap(c, p, c'))
  {
    hide WriteAt, AfterGap;
    var f0 := WriteAt(file, h, a);
    var f1 := WriteAt(f0, s, b);
    var f2 := WriteAt(f1, s + |b|, b');
    WriteSwap(f1, g, c, s + |b|, b');
    WriteTwice(f0, s, b, b');
    assert f2 == WriteAt(f0, s, b + b');
    AfterHeaders(file, h, a, s, b + b', g);
    WriteGap(f2, g, c, p, c');
    var c2 := AfterGap(c, p, c');
    WriteSwap(f2, g, c2, h + |a|, a');
    WriteSwap(f0, s, b + b', h + |a|, a');
    WriteTwice(file, h, a, a');
  }

  lemma {:induction false} AfterHeaders(file: Bytes, h: nat, a: Bytes, s: nat, b: Bytes, g: nat)
    requires h + |a| <= s && s + |b| <= g && |file| <= g
    ensures |WriteAt(WriteAt(file, h, a), s, b)| <= g
  {
  }

  lemma {:induction false} LayeredLength(file: Bytes, h: nat, a: Bytes, s: nat, b: Bytes, g: nat, c: Bytes)
    requires h + |a| <= s && s + |b| <= g && |file| <= g
    ensures |Layered(file, h, a, s, b, g, c)| <= g + |c|
  {
    hide WriteAt;
    AfterHeaders(file, h, a, s, b, g);
  }

  // ---------------------------------------------------------------------------------------
  // The writer
  // ---------------------------------------------------------------------------------------

  /** What is written of the first `k` children of a directory, its own header included. */
  function Progress(file: Bytes, n: Node, k: nat, h: nat, g: nat): Bytes
    requires n.Dir? && k <= |n.children|
  {
    var s, done := ChildrenStart(n, h), n.children[..k];
    Layered(file, h, FirstBytes(n, h, g) + Slots(done, s), s, HeaderImages(done, s, g), g, ContentsOf(done))
  }

  /** Writing the next child and its offset is the next step of the progress. */
  lemma {:induction false} ProgressStep(file: Bytes, n: Node, k: nat, h: nat, g: nat)
    requires n.Dir? && k < |n.children| && |file| <= g && h + HeaderSpace(n) <= g
    ensures var s, done := ChildrenStart(n, h), n.children[..k];
            var hk, gk := s + HeaderSpaces(done), g + DataSpaces(done);
            && hk + HeaderSpace(n.children[k]) <= g
            && |Progress(file, n, k, h, g)| <= gk
            && WriteAt(WriteAt(WriteAt(Progress(file, n, k, h, g), hk, HeaderImage(n.children[k], hk, gk)),
                               gk, Contents(n.children[k])), h + HEADER_SIZE + 8 * k, BigEndian(hk, 8)) ==
               Progress(file, n, k + 1, h, g)
  {
    hide WriteAt, AfterGap, BigEndian, Layered, HeaderImage, Contents, FirstBytes, HeaderSpace;
    var s, done, next := ChildrenStart(n, h), n.children[..k], n.children[..k + 1];
    assert next[..|next| - 1] == done && next[|next| - 1] == n.children[k];
    PrefixSpaces(n.children, k + 1);
    SpaceOfDir(n);
    var first := FirstBytes(n, h, g);
    var hk, gk := s + HeaderSpaces(done), g + DataSpaces(done);
    var a, b, c := first + Slots(done, s), HeaderImages(done, s, g), ContentsOf(done);
    LayeredLength(file, h, a, s, b, g, c);
    OneMore(file, h, a, s, b, g, c, BigEndian(hk, 8), HeaderImage(n.children[k], hk, gk), DataSpaces(done),
            Contents(n.children[k]));
    assert a + BigEndian(hk, 8) == first + Slots(next, s);
  }

  lemma {:induction false} SpaceOfDir(n: Node)
    requires n.Dir?
    ensures HeaderSpace(n) == HEADER_SIZE + 8 * |n.children| + HeaderSpaces(n.children)
  {
  }

  lemma {:induction false} ProgressEnd(file: Bytes, n: Node, h: nat, g: nat)
    requires n.Dir? && |file| <= g && h + HeaderSpace(n) <= g
    ensures Progress(file, n, |n.children|, h, g) ==
            WriteAt(WriteAt(file, h, HeaderImage(n, h, g)), g, Contents(n))
  {
    hide WriteAt, FirstBytes, Slots, HeaderImages, ContentsOf;
    assert n.children[..|n.children|] == n.children;
    var s := ChildrenStart(n, h);
    var a := FirstBytes(n, h, g) + Slots(n.children, s);
    WriteTwice(file, h, a, HeaderImages(n.children, s, g));
  }

  class Master {
    var headerOff: nat
    var fileOff: nat
    const output: OutputFile

    constructor ()
      ensures fresh(output) && output.bytes == [] && output.pos == 0
    {
      headerOff := 0;
      fileOff := 0;
      output := new OutputFile();
    }

    /** Copies a file to the cursor in chunks of eight copy blocks. The number of rounds is counted
    in a signed 32-bit variable, so nothing is copied where the size does not look positive there. */
    method CopyContent(content: Bytes)
      modifies output
      ensures output.bytes == WriteAt(old(output.bytes), old(output.pos), if Copied(|content|) then content else [])
    {
      hide WriteAt;
      var size := |content|;
      var remaining: int := Int32(size);
      var blockSize: int := if COPY_BLOCK > size then size else COPY_BLOCK;
      var capacity := 8 * blockSize;
      var done := 0;
      while remaining > 0
        invariant 0 <= done <= size && capacity >= 0
        invariant (done == 0 && remaining == Int32(size)) || (done == size && Int32(size) > 0)
        invariant remaining > 0 ==> blockSize > 0 && capacity > 0
        invariant output.bytes == WriteAt(old(output.bytes), old(output.pos), content[..done])
        invariant output.pos == old(output.pos) + done
      {
        while done < size
          invariant 0 <= done <= size
          invariant output.bytes == WriteAt(old(output.bytes), old(output.pos), content[..done])
          invariant output.pos == old(output.pos) + done
        {
          var count := if size - done < capacity then size - done else capacity;
          var chunk := content[done..done + count];
          WriteTwice(old(output.bytes), old(output.pos), content[..done], chunk);
          assert content[..done] + chunk == content[..done + count];
          output.Write(chunk);
          done := done + count;
        }
        remaining := remaining - blockSize;
        if blockSize > remaining {
          blockSize := remaining;
        }
      }
      assert content[..size] == content;
    }

    /** Writes the header of a node at `headerOff`. The mark in `fill` tells files and directories
    apart. */
    method WriteHeader(node: Cell, ghost tree: Node, ghost cells: seq<Cell>, ghost lo: nat)
      requires Represents(cells, lo, |cells|, node, tree)
      modifies output
      ensures output.bytes == WriteAt(old(output.bytes), headerOff, FirstBytes(tree, headerOff, fileOff))
    {
      hide WriteAt, BigEndian, SpacePad, Represents, RepresentsAll;
      CellOf(cells, lo, |cells|, node, tree);
      ghost var file, h := output.bytes, headerOff;
      output.Seek(headerOff);
      output.Write(SpacePad(node.data.name));
      var kind := if node.data.isDir then DIRECTORY else PLAIN_FILE;
      if node.fill == -1 {
        WriteFields(node.data.length, node.data.time, fileOff, kind);
        JoinHeader(file, h, tree.name, node.data.length, node.data.time, fileOff, kind);
      } else if node.fill == 0 {
        WriteFields(node.data.length, node.data.time, headerOff + HEADER_SIZE, kind);
        JoinHeader(file, h, tree.name, node.data.length, node.data.time, headerOff + HEADER_SIZE, kind);
      }
    }

    method WriteFields(length: nat, time: nat, offset: nat, kind: nat)
      modifies output
      ensures output.bytes == WriteAt(old(output.bytes), old(output.pos),
                                BigEndian(length, 8) + BigEndian(time, 8) + BigEndian(offset, 8) + BigEndian(kind, 4))
    {
      hide WriteAt, BigEndian;
      ghost var file, pos := output.bytes, output.pos;
      output.Write64(length);
      output.Write64(time);
      WriteTwice(file, pos, BigEndian(length, 8), BigEndian(time, 8));
      output.Write64(offset);
      WriteTwice(file, pos, BigEndian(length, 8) + BigEndian(time, 8), BigEndian(offset, 8));
      output.Write32(kind);
      WriteTwice(file, pos, BigEndian(length, 8) + BigEndian(time, 8) + BigEndian(offset, 8), BigEndian(kind, 4));
    }

    /** Writes the tree that a cell stands for, with its headers from `headerOff` on and its contents
    from `fileOff` on, and returns where its header is. Nothing else of the output changes. */
    method WriteDFS(cells: seq<Cell>, node: Cell, ghost tree: Node, ghost lo: nat) returns (currentOffset: nat)
      requires Represents(cells, lo, |cells|, node, tree)
      requires |output.bytes| <= fileOff && headerOff + HeaderSpace(tree) <= fileOff
      requires fileOff + DataSpace(tree) < TWO64 / 2
      modifies this, output
      ensures currentOffset == old(headerOff)
      ensures headerOff == old(headerOff) + HeaderSpace(tree) && fileOff == old(fileOff) + DataSpace(tree)
      ensures output.bytes ==
              WriteAt(WriteAt(old(output.bytes), old(headerOff), HeaderImage(tree, old(headerOff), old(fileOff))),
                      old(fileOff), Contents(tree))
      decreases tree, 1
    {
      hide WriteAt, BigEndian, AfterGap, FirstBytes, Progress, HeaderImages, Slots, ContentsOf, Represents, RepresentsAll;
      ghost var file, h, g := output.bytes, headerOff, fileOff;
      CellOf(cells, lo, |cells|, node, tree);
      currentOffset := headerOff;
      WriteHeader(node, tree, cells, lo);
      if node.fill == -1 {
        output.Seek(fileOff);
        CopyContent(node.data.content);
        fileOff := fileOff + node.data.length;
        headerOff := headerOff + HEADER_SIZE;
      } else if node.fill == 0 {
        ProgressStart(file, tree, h, g);
        headerOff := currentOffset + HEADER_SIZE + 8 * node.data.length;
        WriteEntries(cells, node, currentOffset, tree, lo, file);
        ProgressEnd(file, tree, h, g);
      }
    }

    /** Writes the children of a directory, each followed by its offset in the table of its parent. */
    method WriteEntries(cells: seq<Cell>, node: Cell, h: nat, ghost tree: Node, ghost lo: nat, ghost file: Bytes)
      requires Represents(cells, lo, |cells|, node, tree) && tree.Dir?
      requires |file| <= fileOff && h + HeaderSpace(tree) <= fileOff
      requires headerOff == ChildrenStart(tree, h) && fileOff + DataSpaces(tree.children) < TWO64 / 2
      requires output.bytes == Progress(file, tree, 0, h, fileOff)
      modifies this, output
      ensures headerOff == ChildrenStart(tree, h) + HeaderSpaces(tree.children)
      ensures fileOff == old(fileOff) + DataSpaces(tree.children)
      ensures output.bytes == Progress(file, tree, |tree.children|, h, old(fileOff))
      decreases tree, 0
    {
      hide WriteAt, BigEndian, FirstBytes, Progress, HeaderImage, Contents, HeaderSpace, HeaderSpaces, DataSpaces, DataSpace,
           Represents, RepresentsAll;
      ghost var g, children := fileOff, tree.children;
      NoSpaces(children);
      CellOf(cells, lo, |cells|, node, tree);
      var endOffset := h + HEADER_SIZE;
      var i := 0;
      while i < node.data.length
        invariant 0 <= i <= node.data.length == |children|
        invariant headerOff == ChildrenStart(tree, h) + HeaderSpaces(children[..i])
        invariant fileOff == g + DataSpaces(children[..i])
        invariant output.bytes == Progress(file, tree, i, h, g)
      {
        ProgressStep(file, tree, i, h, g);
        NextSpaces(children, i);
        RepresentsAt(cells, lo, |cells|, node.children, children, i);
        var childOffset := WriteDFS(cells, cells[node.children + i], children[i], lo);
        output.Seek(endOffset + i * 8);
        output.Write64(childOffset);
        i := i + 1;
      }
      assert children[..i] == children;
    }

    /** Writes the image of the tree that a cell stands for to a new file. The contents start where the
    counts of the tree walk say that the headers end. */
    method ImageDFS(cells: seq<Cell>, root: Cell, headerCount: nat, subitemsCount: nat, ghost tree: Node, ghost lo: nat)
      requires Represents(cells, lo, |cells|, root, tree)
      requires headerCount == Count(tree) && subitemsCount == Count(tree) - 1
      requires HeaderSpace(tree) + DataSpace(tree) < TWO64 / 2
      requires output.bytes == []
      modifies this, output
      ensures output.bytes == Image(tree)
      ensures headerOff == HeaderSpace(tree) && fileOff == HeaderSpace(tree) + DataSpace(tree)
    {
      hide WriteAt, HeaderImage, Contents, HeaderSpace, Represents;
      headerOff := 0;
      HeaderSpaceIsCount(tree);
      fileOff := headerCount * HEADER_SIZE + subitemsCount * 8;
      var _ := WriteDFS(cells, root, tree, lo);
      WriteTwice([], 0, HeaderImage(tree, 0, HeaderSpace(tree)), Contents(tree));
      WriteAll(Image(tree));
    }
  }

  lemma {:induction false} JoinHeader(file: Bytes, h: nat, name: Name, length: nat, time: nat, offset: nat, kind: nat)
    ensures WriteAt(WriteAt(file, h, SpacePad(name)), h + NAME_SIZE,
                    BigEndian(length, 8) + BigEndian(time, 8) + BigEndian(offset, 8) + BigEndian(kind, 4)) ==
            WriteAt(file, h, HeaderBytes(name, length, time, offset, kind))
  {
    hide WriteAt, BigEndian, SpacePad;
    var fields := BigEndian(length, 8) + BigEndian(time, 8) + BigEndian(offset, 8) + BigEndian(kind, 4);
    WriteTwice(file, h, SpacePad(name), fields);
    assert SpacePad(name) + fields == HeaderBytes(name, length, time, offset, kind);
  }

  lemma {:induction false} ProgressStart(file: Bytes, n: Node, h: nat, g: nat)
    requires n.Dir?
    ensures Progress(file, n, 0, h, g) == WriteAt(file, h, FirstBytes(n, h, g))
  {
    hide FirstBytes;
    assert n.children[..0] == [];
    assert FirstBytes(n, h, g) + [] == FirstBytes(n, h, g);
  }

  lemma {:induction false} NoSpaces(ns: seq<Node>)
    ensures HeaderSpaces(ns[..0]) == 0 && DataSpaces(ns[..0]) == 0
  {
    assert ns[..0] == [];
  }

  lemma {:induction false} NextSpaces(ns: seq<Node>, k: nat)
    requires k < |ns|
    ensures HeaderSpaces(ns[..k + 1]) == HeaderSpaces(ns[..k]) + HeaderSpace(ns[k])
    ensures DataSpaces(ns[..k + 1]) == DataSpaces(ns[..k]) + DataSpace(ns[k])
    ensures DataSpaces(ns[..k + 1]) <= DataSpaces(ns)
  {
    assert ns[..k + 1][..k] == ns[..k];
    PrefixSpaces(ns, k + 1);
  }

  lemma {:induction false} WriteAll(s: Bytes)
    ensures WriteAt([], 0, s) == s
  {
  }
}
