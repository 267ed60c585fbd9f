/** The whole way of a file tree: walked, laid out, hashed and encoded onto a medium; then read back
from what the medium has become, decoded, checked and mounted. */
module Pipeline {
  import opened ByteString
  import opened OnDisk
  import opened Layout
  import opened HashTrailer
  import opened FileCodec
  import opened Medium
  import GaloisField
  import FieldTables
  import M = Mount
  import T = TreeBuilder
  import V = TreeView
  import W = ImageWriter

  // ---------------------------------------------------------------------------------------
  // From the tree to the medium
  // ---------------------------------------------------------------------------------------

  /** What goes onto the medium for a tree, before it is encoded. */
  function Hashed(root: Node, mac: Mac): Bytes
  {
    Sealed(mac, Image(root))
  }

  /** A tree whose image the mastering tool can handle: times fit their fields, and offsets into the
  hashed image fit a signed 32-bit number. */
  ghost predicate Masterable(tree: Node, mac: Mac)
  {
    Timed(tree) && HeaderSpace(tree) + DataSpace(tree) < TWO32 / 2 && |Hashed(tree, mac)| < TWO32 / 2
  }

  /** Walks a tree, builds it up in memory, lays the memory out, hashes and encodes it. What is
  mastered is the tree with its names cut at separators. */
  method MasterTree(root: Node, path: Bytes, mac: Mac) returns (sent: Bytes, ghost code: Code)
    requires T.Visible(root) && T.ParseName(path) == T.ParseName(root.name) && Masterable(T.Renamed(root), mac)
    ensures WofsCode(code) && ByteCode(code) && Encodes(code, Hashed(T.Renamed(root), mac), sent)
    ensures T.PlainNames(root) ==> Encodes(code, Hashed(root, mac), sent)
  {
    hide GaloisField.Valid, Encodes, Sealed, Image, HeaderSpace, DataSpace, FieldTables.Filled,
         T.Represents, T.Walk, T.Run, T.Visible, T.PlainNames, T.Renamed, T.ParseName, Timed, Count, Contents;
    var builder := new T.Builder();
    T.WalkGivesUpNowhere(root, path);
    var status := builder.Traverse(T.Walk(root, path));
    T.TreeBuilt(root, path);
    T.RenamedCount(root);
    T.RenamedIff(root);
    ghost var tree := T.Renamed(root);
    SealedLonger(mac, tree);
    var writer := new W.Master();
    writer.ImageDFS(builder.cells, builder.cells[0], builder.headerCount, builder.subitemsCount, tree, 1);
    var hashed := HashAndAppend(writer.output.bytes, mac);
    sent, code := AddReedSolomon(hashed);
  }

  lemma {:induction false} SealedLonger(mac: Mac, root: Node)
    ensures |Image(root)| <= |Hashed(root, mac)|
  {
    hide ImageBlocks, Digests, BigEndian, HeaderSpace, Contents;
  }

  // ---------------------------------------------------------------------------------------
  // From the medium to the mounted tree
  // ---------------------------------------------------------------------------------------

  /** The image mounts as this tree. */
  ghost predicate Mounts(image: Bytes, root: Node)
  {
    M.Known(image, Root(root)) && HeaderSpace(root) + DataSpace(root) <= |image| < TWO64 / 2 && AllCopied(root)
  }

  lemma {:induction false} HashedMounts(root: Node, mac: Mac)
    requires Masterable(root, mac)
    ensures Mounts(Hashed(root, mac), root)
    ensures HasTrailer(Hashed(root, mac)) && ImagePart(Hashed(root, mac)) == Image(root)
    ensures Authentic(mac, Hashed(root, mac))
  {
    hide ImageBlocks, Digests, BigEndian, HeaderImage, Contents, Placed, Timed, DataSpace;
    var image := Image(root);
    SealedAccepted(mac, image);
    assert Hashed(root, mac) == image + Hashed(root, mac)[|image|..];
    RootPlaced(root, Hashed(root, mac)[|image|..]);
    SmallIsCopied(root);
    AllContents(root);
    HeaderSpaceIsCount(root);
  }

  /** Decodes, checks and opens the medium of a tree after at most sixteen bytes of each run of 255 have
  changed: the check passes, and the tree is mounted. */
  method OpenMedium(received: Bytes, mac: Mac, ghost root: Node, ghost sent: Bytes, ghost code: Code)
    returns (status: Status, trusted: bool, mounter: M.Mounter)
    requires Masterable(root, mac) && WofsCode(code) && ByteCode(code)
    requires Encodes(code, Hashed(root, mac), sent) && |sent| == |received|
    requires forall k :: 0 <= k && 255 * k < |sent| ==> RunChanges(sent, received, k) <= 16
    ensures status == Success && trusted && Mounts(mounter.fp.bytes, root) && fresh(mounter) && fresh(mounter.fp)
  {
    hide GaloisField.Valid, Encodes, FileResult, Hashed, FieldTables.Filled, Mounts, Authentic, Masterable,
         WofsCode, HasTrailer, RunChanges;
    ghost var code': Code;
    var output;
    status, output, code' := DecodeMedium(received);
    WofsCodeUnique(code, code');
    assert SixteenPerBlock(sent, received);
    MediumRecovered(code, Hashed(root, mac), sent, received);
    SealedLonger(mac, root);
    HashedMounts(root, mac);
    trusted := CheckHash(output, mac);
    mounter := new M.Mounter(output);
  }

  // ---------------------------------------------------------------------------------------
  // The mounted tree is the original tree
  // ---------------------------------------------------------------------------------------

  /** The path of the node at the end of a trail. */
  function PathTo(root: Node, ks: seq<nat>): Bytes
    requires M.IsTrail(root, ks)
  {
    M.PathOf(M.NamesOn(root, ks))
  }

  ghost predicate Addressable(root: Node, ks: seq<nat>)
  {
    M.DistinctNames(root) && M.IsTrail(root, ks) && M.AreComponents(M.NamesOn(root, ks))
  }

  lemma {:induction false} PathLeads(root: Node, ks: seq<nat>)
    requires Addressable(root, ks)
    ensures M.Lookup(Root(root), M.Tokens(PathTo(root, ks))) == M.Some(M.Follow(Root(root), ks))
    ensures PathTo(root, ks) != [SLASH]
  {
    hide M.Tokens, M.Lookup, M.DistinctNames, M.Follow, M.IsTrail, HeaderSpace;
    M.TokensOfPath(M.NamesOn(root, ks));
    M.LookupFinds(Root(root), ks);
    var names := M.NamesOn(root, ks);
    assert M.IsComponent(names[0]);
  }

  /** Every node of the tree is found under its path, with its own header. */
  method FindNode(mounter: M.Mounter, ghost root: Node, ghost ks: seq<nat>, path: Bytes) returns (r: M.Option<Header>)
    requires Mounts(mounter.fp.bytes, root) && Addressable(root, ks) && path == PathTo(root, ks)
    modifies mounter.fp
    ensures r == M.Some(M.HeaderAt(M.Follow(Root(root), ks)))
  {
    hide M.Known, M.Lookup, M.Tokens, Addressable, PathTo, M.Follow, AllCopied, M.FindIn, M.ListIn;
    PathLeads(root, ks);
    M.RootFound(mounter.fp.bytes, root, M.Tokens(path));
    r := mounter.Find(path);
  }

  /** Every directory of the tree lists its entries in order, and nothing else. */
  method ListNode(mounter: M.Mounter, ghost root: Node, ghost ks: seq<nat>, path: Bytes)
    returns (r: M.Option<seq<Bytes>>)
    requires Mounts(mounter.fp.bytes, root) && Addressable(root, ks) && path == PathTo(root, ks)
    modifies mounter.fp
    ensures var node := M.Follow(Root(root), ks).node;
            r == if node.Dir? then M.Some([[46], [46, 46]] + M.NamesOf(node.children)) else M.None
  {
    hide M.Known, M.Lookup, M.Tokens, Addressable, PathTo, M.Follow, AllCopied, M.FindIn, M.ListIn;
    PathLeads(root, ks);
    M.ListAgrees(mounter.fp.bytes, root, path);
    r := mounter.ReadDir(path);
  }

  /** Every file of the tree reads as its content. */
  method ReadNode(mounter: M.Mounter, ghost root: Node, ghost ks: seq<nat>, path: Bytes, size: nat, offset: int)
    returns (r: M.Option<Bytes>)
    requires Mounts(mounter.fp.bytes, root) && Addressable(root, ks) && path == PathTo(root, ks)
    requires size < TWO64 / 2 && -(TWO64 / 2) <= offset < TWO64 / 2
    modifies mounter.fp
    ensures var node := M.Follow(Root(root), ks).node;
            if node.Dir? then r == M.None
            else
              && r.Some?
              && |r.value| == (if offset < 0 || offset >= |node.content| then 0
                               else if size < |node.content| - offset then size else |node.content| - offset)
              && forall i :: 0 <= i < |r.value| ==> r.value[i] == node.content[offset + i]
  {
    hide M.Known, M.Lookup, M.Tokens, Addressable, PathTo, M.Follow, HeaderSpace, DataSpace, M.ReadIn;
    PathLeads(root, ks);
    M.ReadAgrees(mounter.fp.bytes, root, path, size, offset);
    r := mounter.MountRead(path, size, offset);
    M.LookupInside(Root(root), M.Tokens(path));
    M.RootAt(root);
  }

  // ---------------------------------------------------------------------------------------
  // The printed tree is the walked tree
  // ---------------------------------------------------------------------------------------

  /** Printing the hashed image of a walked tree prints its walk, one line for each callback. */
  method PrintMastered(image: Bytes, ghost root: Node, ghost path: Bytes, ghost mac: Mac) returns (lines: seq<V.Line>)
    requires T.ParseName(path) == T.ParseName(root.name) && Masterable(T.Renamed(root), mac)
    requires image == Hashed(T.Renamed(root), mac)
    ensures lines == V.Printed(Root(T.Renamed(root)), 0)
    ensures V.TellsAll(lines, T.Walk(root, path))
    ensures V.NoSlashesBelow(root) ==> V.DepthsTell(lines, T.Walk(root, path), 0 - V.Slashes(path))
  {
    hide V.NoSlashesBelow, V.DepthsTell, V.Slashes, T.ParseName, T.Renamed, T.Walk, Timed, DataSpace, HeaderSpace, Placed, V.Printed, V.TellsAll, Hashed, ParseHeader,
         Authentic, ImagePart;
    ghost var tree := T.Renamed(root);
    HashedMounts(tree, mac);
    HashedTail(tree, mac);
    M.KnownHeader(image, Root(tree));
    M.RootAt(tree);
    V.PrintsTheWalk(Root(tree), root, 0, path);
    var printer := new V.Printer(image);
    var header := printer.ReadHeader(0);
    printer.PrintMetadata(header, 0, Root(tree));
    lines := printer.output;
  }

  lemma {:induction false} HashedTail(root: Node, mac: Mac)
    ensures HeaderSpace(root) + 4 <= |Hashed(root, mac)|
  {
    hide ImageBlocks, Digests, BigEndian, HeaderSpace, Contents;
  }
}
