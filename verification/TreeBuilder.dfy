/** Rebuilding a file tree from the flat, depth-first callback stream of a tree walk. Children are
inserted into an array that the visit of their directory allocates, through a stack of copies of
the directories that still wait for entries. */
module TreeBuilder {
  import opened ByteString
  import opened OnDisk

  predicate Separator(b: byte)
  {
    b == SLASH || b == BACKSLASH
  }

  /** Where the last component of a path starts. */
  function NameStart(path: Bytes): (r: nat)
    ensures r <= |path|
  {
    if path == [] || Separator(path[|path| - 1]) then |path| else NameStart(path[..|path| - 1])
  }

  /** The part of a path after its last separator. A backslash is a separator, too. */
  function ParseName(path: Bytes): Bytes
  {
    path[NameStart(path)..]
  }

  lemma {:induction false} NameStarts(path: Bytes)
    ensures forall i :: NameStart(path) <= i < |path| ==> !Separator(path[i])
    ensures NameStart(path) > 0 ==> Separator(path[NameStart(path) - 1])
  {
    if path != [] && !Separator(path[|path| - 1]) {
      NameStarts(path[..|path| - 1]);
    }
  }

  predicate IsDots(name: Bytes)
  {
    name == [DOT] || name == [DOT, DOT]
  }

  // ---------------------------------------------------------------------------------------
  // The walk
  // ---------------------------------------------------------------------------------------

  datatype Kind = Directory | PlainFile | SymLink | Unreadable

  /** One callback: the path, the kind of entry, for a directory the number of its entries, the time,
  and for a file what the path refers to. */
  datatype Visit = Visit(path: Bytes, kind: Kind, entries: nat, time: nat, content: Bytes)

  function VisitOf(n: Node, path: Bytes): Visit
  {
    if n.File? then Visit(path, PlainFile, 0, n.time, n.content)
    else Visit(path, Directory, |n.children|, n.time, [])
  }

  function Below(path: Bytes, name: Bytes): Bytes
  {
    path + [SLASH] + name
  }

  /** The callbacks for a tree, every directory before what it holds. */
  function Walk(n: Node, path: Bytes): seq<Visit>
    decreases n
  {
    [VisitOf(n, path)] + if n.File? then [] else WalkAll(n.children, path)
  }

  function WalkAll(ns: seq<Node>, path: Bytes): seq<Visit>
    decreases ns
  {
    if ns == [] then []
    else WalkAll(ns[..|ns| - 1], path) + Walk(ns[|ns| - 1], Below(path, ns[|ns| - 1].name))
  }

  // ---------------------------------------------------------------------------------------
  // The builder
  // ---------------------------------------------------------------------------------------

  datatype Meta = Meta(name: Bytes, isDir: bool, length: nat, time: nat, content: Bytes)

  /** A tree node in memory: `children` is where the array of its children starts. */
  datatype Cell = Cell(data: Meta, children: nat, fill: int)

  const BLANK := Cell(Meta([], false, 0, 0, []), 0, 0)

  /** All memory that was allocated for tree nodes, the directories with room left, and the two
  counters from which the size of the header region is computed. */
  datatype State = State(cells: seq<Cell>, stack: seq<Cell>, headers: nat, subitems: nat)

  function Blanks(n: nat): (r: seq<Cell>)
    ensures |r| == n
  {
    seq(n, i => BLANK)
  }

  function Put(cells: seq<Cell>, at: int, c: Cell): (r: seq<Cell>)
    ensures |r| == |cells|
  {
    if 0 <= at < |cells| then cells[at := c] else cells
  }

  /** The parent goes back on the stack unless this was its last entry. */
  function Again(parent: Cell): seq<Cell>
  {
    if parent.fill + 1 != parent.data.length then [parent.(fill := parent.fill + 1)] else []
  }

  function Step(s: State, v: Visit): State
  {
    var name := ParseName(v.path);
    if IsDots(name) then s
    else
      var s' := s.(headers := s.headers + 1);
      match v.kind
      case Directory =>
        var s2 := s'.(subitems := s.subitems + v.entries);
        if s.stack == [] then s2
        else
          var parent := s.stack[|s.stack| - 1];
          var child := Cell(Meta(name, true, v.entries, v.time, []), |s.cells|, 0);
          s2.(cells := Put(s.cells, parent.children + parent.fill, child) + Blanks(v.entries),
              stack := s.stack[..|s.stack| - 1] + Again(parent) + if v.entries != 0 then [child] else [])
      case PlainFile | SymLink =>
        if s.stack == [] then s'
        else
          var parent := s.stack[|s.stack| - 1];
          var child := Cell(Meta(name, false, |v.content|, v.time, v.content), 0, -1);
          s'.(cells := Put(s.cells, parent.children + parent.fill, child),
              stack := s.stack[..|s.stack| - 1] + Again(parent))
      case Unreadable => s'
  }

  /** A symbolic link is mastered as the file that it leads to. */
  lemma {:induction false} LinksAreFiles(s: State, v: Visit)
    ensures Step(s, v.(kind := SymLink)) == Step(s, v.(kind := PlainFile))
  {
    hide ParseName, Put, Again;
  }

  function Run(s: State, vs: seq<Visit>): State
  {
    if vs == [] then s else Step(Run(s, vs[..|vs| - 1]), vs[|vs| - 1])
  }

  lemma {:induction false} RunAppend(s: State, vs: seq<Visit>, ws: seq<Visit>)
    ensures Run(s, vs + ws) == Run(Run(s, vs), ws)
    decreases |ws|
  {
    hide Step;
    if ws == [] {
      assert vs + ws == vs;
    } else {
      var init := ws[..|ws| - 1];
      RunAppend(s, vs, init);
      assert (vs + ws)[..|vs + ws| - 1] == vs + init;
    }
  }

  // ---------------------------------------------------------------------------------------
  // What a cell stands for
  // ---------------------------------------------------------------------------------------

  /** A cell is the root of a tree whose arrays of children all lie in `lo..hi`. */
  predicate Represents(cells: seq<Cell>, lo: nat, hi: nat, c: Cell, n: Node)
    requires hi <= |cells|
    decreases n
  {
    && c.data.name == n.name && c.data.time == n.time
    && match n
       case File(_, _, content) =>
         c.fill == -1 && !c.data.isDir && c.data.length == |content| && c.data.content == content
       case Dir(_, _, children) =>
         && c.fill == 0 && c.data.isDir && c.data.length == |children|
         && lo <= c.children && c.children + |children| <= hi
         && RepresentsAll(cells, lo, hi, c.children, children)
  }

  /** The cells from `base` on are the roots of these trees. */
  predicate RepresentsAll(cells: seq<Cell>, lo: nat, hi: nat, base: nat, ns: seq<Node>)
    requires hi <= |cells| && base + |ns| <= |cells|
    decreases ns
  {
    ns == [] ||
    (&& RepresentsAll(cells, lo, hi, base, ns[..|ns| - 1])
     && Represents(cells, lo, hi, cells[base + |ns| - 1], ns[|ns| - 1]))
  }

  predicate Kept(cells: seq<Cell>, cells': seq<Cell>, lo: nat, hi: nat)
    requires hi <= |cells| && hi <= |cells'|
  {
    forall i :: lo <= i < hi ==> cells'[i] == cells[i]
  }

  /** Memory outside the range is irrelevant, and the range may grow. */
  lemma {:induction false} RepresentsFrame(cells: seq<Cell>, lo: nat, hi: nat, c: Cell, n: Node,
                                           cells': seq<Cell>, lo': nat, hi': nat)
    requires lo' <= lo <= hi <= hi' <= |cells'| && hi <= |cells| && Kept(cells, cells', lo, hi)
    requires Represents(cells, lo, hi, c, n)
    ensures Represents(cells', lo', hi', c, n)
    decreases n
  {
    hide RepresentsAll;
    if n.Dir? {
      RepresentsAllFrame(cells, lo, hi, c.children, n.children, cells', lo', hi');
    }
  }

  lemma {:induction false} RepresentsAllFrame(cells: seq<Cell>, lo: nat, hi: nat, base: nat, ns: seq<Node>,
                                              cells': seq<Cell>, lo': nat, hi': nat)
    requires lo' <= lo <= hi <= hi' <= |cells'| && hi <= |cells| && Kept(cells, cells', lo, hi)
    requires base + |ns| <= |cells| && base + |ns| <= |cells'| && Kept(cells, cells', base, base + |ns|)
    requires RepresentsAll(cells, lo, hi, base, ns)
    ensures RepresentsAll(cells', lo', hi', base, ns)
    decreases ns
  {
    hide Represents;
    if ns != [] {
      assert cells'[base + |ns| - 1] == cells[base + |ns| - 1];
      RepresentsAllFrame(cells, lo, hi, base, ns[..|ns| - 1], cells', lo', hi');
      RepresentsFrame(cells, lo, hi, cells[base + |ns| - 1], ns[|ns| - 1], cells', lo', hi');
    }
  }

  lemma {:induction false} RepresentsAt(cells: seq<Cell>, lo: nat, hi: nat, base: nat, ns: seq<Node>, k: nat)
    requires hi <= |cells| && base + |ns| <= |cells| && k < |ns| && RepresentsAll(cells, lo, hi, base, ns)
    ensures Represents(cells, lo, hi, cells[base + k], ns[k])
    decreases |ns|
  {
    hide Represents;
    if k < |ns| - 1 {
      RepresentsAt(cells, lo, hi, base, ns[..|ns| - 1], k);
    }
  }

  /** What a cell says about the root of its tree. */
  lemma {:induction false} CellOf(cells: seq<Cell>, lo: nat, hi: nat, c: Cell, n: Node)
    requires hi <= |cells| && Represents(cells, lo, hi, c, n)
    ensures c.data.name == n.name && c.data.time == n.time && c.fill == (if n.File? then -1 else 0)
    ensures n.File? ==> !c.data.isDir && c.data.length == |n.content| && c.data.content == n.content
    ensures n.Dir? ==> c.data.isDir && c.data.length == |n.children| && c.children + |n.children| <= hi
    ensures n.Dir? ==> RepresentsAll(cells, lo, hi, c.children, n.children)
  {
    hide RepresentsAll;
  }

  /** A cell stands for at most one tree. */
  lemma {:induction false} RepresentsUnique(cells: seq<Cell>, lo: nat, hi: nat, c: Cell, n: Node, m: Node)
    requires hi <= |cells| && Represents(cells, lo, hi, c, n) && Represents(cells, lo, hi, c, m)
    ensures n == m
    decreases n
  {
    hide RepresentsAll;
    if n.Dir? && m.Dir? {
      RepresentsAllUnique(cells, lo, hi, c.children, n.children, m.children);
    }
  }

  lemma {:induction false} RepresentsAllUnique(cells: seq<Cell>, lo: nat, hi: nat, base: nat, ns: seq<Node>, ms: seq<Node>)
    requires hi <= |cells| && base + |ns| <= |cells| && |ns| == |ms|
    requires RepresentsAll(cells, lo, hi, base, ns) && RepresentsAll(cells, lo, hi, base, ms)
    ensures ns == ms
    decreases ns
  {
    hide Represents;
    if ns != [] {
      RepresentsAllUnique(cells, lo, hi, base, ns[..|ns| - 1], ms[..|ns| - 1]);
      RepresentsUnique(cells, lo, hi, cells[base + |ns| - 1], ns[|ns| - 1], ms[|ns| - 1]);
      assert ns == ns[..|ns| - 1] + [ns[|ns| - 1]] && ms == ms[..|ns| - 1] + [ms[|ns| - 1]];
    }
  }

  /** The tree with every name cut at its last separator. */
  function Renamed(n: Node): (r: Node)
    decreases n
  {
    match n
    case File(name, time, content) => File(ParseName(name), time, content)
    case Dir(name, time, children) => Dir(ParseName(name), time, RenamedAll(children))
  }

  function RenamedAll(ns: seq<Node>): (r: seq<Node>)
    ensures |r| == |ns|
    decreases ns
  {
    if ns == [] then [] else RenamedAll(ns[..|ns| - 1]) + [Renamed(ns[|ns| - 1])]
  }

  lemma {:induction false} RenamedAt(ns: seq<Node>, k: nat)
    requires k < |ns|
    ensures RenamedAll(ns)[k] == Renamed(ns[k])
    decreases |ns|
  {
    hide Renamed;
    if k < |ns| - 1 {
      RenamedAt(ns[..|ns| - 1], k);
    }
  }

  /** No name is cut down to one that the walk skips. */
  predicate Visible(n: Node)
    decreases n
  {
    !IsDots(ParseName(n.name)) && (n.Dir? ==> VisibleAll(n.children))
  }

  predicate VisibleAll(ns: seq<Node>)
    decreases ns
  {
    ns == [] || (VisibleAll(ns[..|ns| - 1]) && Visible(ns[|ns| - 1]))
  }

  // ---------------------------------------------------------------------------------------
  // The walk builds the tree
  // ---------------------------------------------------------------------------------------

  /** The tree was inserted at the next place of `parent`, and no other memory changed. */
  ghost predicate Grown(s: State, s': State, rest: seq<Cell>, parent: Cell, n: Node)
  {
    var at := parent.children + parent.fill;
    && 0 <= at < |s.cells| <= |s'.cells|
    && s'.headers == s.headers + Count(n)
    && s'.subitems == s.subitems + Count(n) - 1
    && s'.stack == rest + Again(parent)
    && Kept(s.cells, s'.cells, 0, at) && Kept(s.cells, s'.cells, at + 1, |s.cells|)
    && Represents(s'.cells, |s.cells|, |s'.cells|, s'.cells[at], Renamed(n))
  }

  /** The first entries `ns` of a directory were inserted; `dir` is its copy on the stack. */
  ghost predicate Filling(s: State, s': State, rest: seq<Cell>, dir: Cell, ns: seq<Node>)
  {
    && |ns| <= dir.data.length
    && dir.fill == 0 && dir.children + dir.data.length == |s.cells|
    && |s.cells| <= |s'.cells|
    && s'.headers == s.headers + Counts(ns)
    && s'.subitems == s.subitems + Counts(ns) - |ns|
    && s'.stack == rest + (if |ns| < dir.data.length then [dir.(fill := |ns|)] else [])
    && Kept(s.cells, s'.cells, 0, dir.children)
    && RepresentsAll(s'.cells, |s.cells|, |s'.cells|, dir.children, RenamedAll(ns))
  }

  lemma {:induction false} NameBelow(path: Bytes, name: Bytes)
    ensures ParseName(Below(path, name)) == ParseName(name)
  {
    NameStartBelow(path, name);
    var p, k := Below(path, name), NameStart(name);
    assert p[|path| + 1..] == name;
    assert p[|path| + 1 + k..] == p[|path| + 1..][k..];
  }

  lemma {:induction false} NameStartBelow(path: Bytes, name: Bytes)
    ensures NameStart(Below(path, name)) == |path| + 1 + NameStart(name)
    decreases |name|
  {
    var p := Below(path, name);
    if name == [] {
      assert p[|p| - 1] == SLASH;
    } else {
      var init := name[..|name| - 1];
      assert p[..|p| - 1] == Below(path, init) && p[|p| - 1] == name[|name| - 1];
      NameStartBelow(path, init);
    }
  }

  /** One more entry. */
  lemma {:induction false} FillingStep(s: State, s': State, s2: State, rest: seq<Cell>, dir: Cell, ns: seq<Node>, n: Node)
    requires |ns| < dir.data.length
    requires Filling(s, s', rest, dir, ns)
    requires Grown(s', s2, rest, dir.(fill := |ns|), n)
    ensures Filling(s, s2, rest, dir, ns + [n])
  {
    hide Represents, Renamed, RepresentsAll, RenamedAll, Counts;
    var k, lo := |ns|, |s.cells|;
    NextEntry(ns, n);
    KeptMore(s.cells, s'.cells, s2.cells, dir.children);
    assert Kept(s'.cells, s2.cells, dir.children, dir.children + k);
    assert Kept(s'.cells, s2.cells, lo, |s'.cells|);
    RepresentsAllFrame(s'.cells, lo, |s'.cells|, dir.children, RenamedAll(ns), s2.cells, lo, |s2.cells|);
    assert Kept(s2.cells, s2.cells, |s'.cells|, |s2.cells|);
    RepresentsFrame(s2.cells, |s'.cells|, |s2.cells|, s2.cells[dir.children + k], Renamed(n), s2.cells, lo, |s2.cells|);
    RepresentsSnoc(s2.cells, lo, |s2.cells|, dir.children, RenamedAll(ns), Renamed(n));
  }

  lemma {:induction false} KeptMore(cells: seq<Cell>, cells': seq<Cell>, cells2: seq<Cell>, hi: nat)
    requires hi <= |cells| && hi <= |cells'| && hi <= |cells2|
    requires Kept(cells, cells', 0, hi) && Kept(cells', cells2, 0, hi)
    ensures Kept(cells, cells2, 0, hi)
  {
    forall i | 0 <= i < hi
      ensures cells2[i] == cells[i]
    {
      assert cells'[i] == cells[i];
    }
  }

  lemma {:induction false} NextEntry(ns: seq<Node>, n: Node)
    ensures Counts(ns + [n]) == Counts(ns) + Count(n)
    ensures RenamedAll(ns + [n]) == RenamedAll(ns) + [Renamed(n)]
  {
    hide Count, Renamed;
    assert (ns + [n])[..|ns|] == ns;
  }

  lemma {:induction false} RepresentsSnoc(cells: seq<Cell>, lo: nat, hi: nat, base: nat, ns: seq<Node>, n: Node)
    requires hi <= |cells| && base + |ns| < |cells|
    requires RepresentsAll(cells, lo, hi, base, ns) && Represents(cells, lo, hi, cells[base + |ns|], n)
    ensures RepresentsAll(cells, lo, hi, base, ns + [n])
  {
    hide Represents;
    assert (ns + [n])[..|ns|] == ns;
  }

  lemma {:induction false} WalkSnoc(ns: seq<Node>, n: Node, path: Bytes)
    ensures WalkAll(ns + [n], path) == WalkAll(ns, path) + Walk(n, Below(path, n.name))
    ensures VisibleAll(ns + [n]) == (VisibleAll(ns) && Visible(n))
  {
    hide Walk, Visible, Below;
    assert (ns + [n])[..|ns|] == ns;
  }

  lemma {:induction false} EntriesBuild(s: State, rest: seq<Cell>, dir: Cell, ns: seq<Node>, path: Bytes)
    requires |ns| <= dir.data.length && VisibleAll(ns)
    requires dir.fill == 0 && dir.children + dir.data.length == |s.cells|
    requires s.stack == rest + (if 0 < dir.data.length then [dir] else [])
    ensures Filling(s, Run(s, WalkAll(ns, path)), rest, dir, ns)
    decreases ns
  {
    hide Step, Represents, RepresentsAll, Renamed, RenamedAll, Walk, Visible, Below, Counts, Count, Kept, Again,
         Filling, Grown;
    if ns == [] {
      FillingStart(s, rest, dir);
    } else {
      hide WalkAll, Run, VisibleAll;
      var done, last := ns[..|ns| - 1], ns[|ns| - 1];
      assert done + [last] == ns;
      WalkSnoc(done, last, path);
      EntriesBuild(s, rest, dir, done, path);
      var s' := Run(s, WalkAll(done, path));
      FillingTop(s, s', rest, dir, done);
      NameBelow(path, last.name);
      WalkBuilds(s', rest, dir.(fill := |done|), last, Below(path, last.name));
      RunAppend(s, WalkAll(done, path), Walk(last, Below(path, last.name)));
      FillingStep(s, s', Run(s', Walk(last, Below(path, last.name))), rest, dir, done, last);
    }
  }

  lemma {:induction false} FillingStart(s: State, rest: seq<Cell>, dir: Cell)
    requires dir.fill == 0 && dir.children + dir.data.length == |s.cells|
    requires s.stack == rest + (if 0 < dir.data.length then [dir] else [])
    ensures Filling(s, s, rest, dir, [])
  {
    assert dir.(fill := 0) == dir;
  }

  lemma {:induction false} FillingTop(s: State, s': State, rest: seq<Cell>, dir: Cell, ns: seq<Node>)
    requires |ns| < dir.data.length && Filling(s, s', rest, dir, ns)
    ensures s'.stack == rest + [dir.(fill := |ns|)] && dir.children + |ns| < |s'.cells|
  {
    hide RepresentsAll, Kept, RenamedAll, Counts;
  }

  function DirCell(n: Node, name: Bytes, at: nat): Cell
    requires n.Dir?
  {
    Cell(Meta(name, true, |n.children|, n.time, []), at, 0)
  }

  /** A directory is complete when all its entries are. */
  lemma {:induction false} DirectoryGrown(s: State, s2: State, rest: seq<Cell>, parent: Cell, n: Node, name: Bytes, s1: State)
    requires n.Dir? && 0 <= parent.children + parent.fill < |s.cells| && name == ParseName(n.name)
    requires s1.headers == s.headers + 1 && s1.subitems == s.subitems + |n.children|
    requires s1.cells == s.cells[parent.children + parent.fill := DirCell(n, name, |s.cells|)] + Blanks(|n.children|)
    requires Filling(s1, s2, rest + Again(parent), DirCell(n, name, |s.cells|), n.children)
    ensures Grown(s, s2, rest, parent, n)
  {
    hide Again, Blanks, Represents, RepresentsAll, RenamedAll, ParseName, Counts, Kept;
    var at := parent.children + parent.fill;
    var dir := DirCell(n, name, |s.cells|);
    PlacedKept(s.cells, s1.cells, s2.cells, at, dir, |n.children|);
    KeptSelf(s2.cells, 0, |s2.cells|);
    KeptSelf(s2.cells, |s1.cells|, |s2.cells|);
    KeptSelf(s2.cells, dir.children, dir.children + |n.children|);
    RepresentsAllFrame(s2.cells, |s1.cells|, |s2.cells|, dir.children, RenamedAll(n.children), s2.cells, |s.cells|, |s2.cells|);
    DirRepresents(s2.cells, |s.cells|, |s2.cells|, n, name);
  }

  lemma {:induction false} KeptSelf(cells: seq<Cell>, lo: nat, hi: nat)
    requires hi <= |cells|
    ensures Kept(cells, cells, lo, hi)
  {
  }

  lemma {:induction false} PlacedKept(cells: seq<Cell>, cells1: seq<Cell>, cells2: seq<Cell>, at: nat, c: Cell, m: nat)
    requires at < |cells| <= |cells1| <= |cells2|
    requires cells1 == cells[at := c] + Blanks(m) && Kept(cells1, cells2, 0, |cells|)
    ensures cells2[at] == c && Kept(cells, cells2, 0, at) && Kept(cells, cells2, at + 1, |cells|)
  {
    hide Blanks;
    assert forall i :: 0 <= i < |cells| ==> cells1[i] == cells[at := c][i];
  }

  lemma {:induction false} DirRepresents(cells: seq<Cell>, lo: nat, hi: nat, n: Node, name: Bytes)
    requires n.Dir? && lo + |n.children| <= hi <= |cells| && name == ParseName(n.name)
    requires RepresentsAll(cells, lo, hi, lo, RenamedAll(n.children))
    ensures Represents(cells, lo, hi, DirCell(n, name, lo), Renamed(n))
  {
    hide RepresentsAll, RenamedAll, ParseName;
  }

  lemma {:induction false} DirectoryStep(s: State, rest: seq<Cell>, parent: Cell, n: Node, path: Bytes)
    requires n.Dir? && s.stack == rest + [parent] && 0 <= parent.children + parent.fill < |s.cells|
    requires !IsDots(ParseName(path))
    ensures var s1 := Step(s, VisitOf(n, path));
            var dir := DirCell(n, ParseName(path), |s.cells|);
            && s1.headers == s.headers + 1 && s1.subitems == s.subitems + |n.children|
            && s1.cells == s.cells[parent.children + parent.fill := dir] + Blanks(|n.children|)
            && s1.stack == rest + Again(parent) + (if 0 < |n.children| then [dir] else [])
  {
    hide Again, Blanks, ParseName;
    assert s.stack[..|s.stack| - 1] == rest && s.stack[|s.stack| - 1] == parent;
  }

  lemma {:induction false} FileGrown(s: State, rest: seq<Cell>, parent: Cell, n: Node, path: Bytes)
    requires n.File? && s.stack == rest + [parent] && 0 <= parent.children + parent.fill < |s.cells|
    requires !IsDots(ParseName(path)) && ParseName(path) == ParseName(n.name)
    ensures Grown(s, Step(s, VisitOf(n, path)), rest, parent, n)
  {
    hide Again, ParseName;
    assert s.stack[..|s.stack| - 1] == rest && s.stack[|s.stack| - 1] == parent;
  }

  /** Walking a tree inserts exactly that tree at the next place of the directory on top of the
  stack, and leaves the rest of the stack and of the memory as it was. */
  lemma {:induction false} WalkBuilds(s: State, rest: seq<Cell>, parent: Cell, n: Node, path: Bytes)
    requires s.stack == rest + [parent] && 0 <= parent.children + parent.fill < |s.cells|
    requires Visible(n) && ParseName(path) == ParseName(n.name)
    ensures Grown(s, Run(s, Walk(n, path)), rest, parent, n)
    decreases n
  {
    hide Again, Step, Run, WalkAll, VisibleAll, ParseName, Grown, Filling, Blanks, DirCell, Renamed, Represents;
    var v := VisitOf(n, path);
    RunOne(s, v);
    if n.File? {
      FileGrown(s, rest, parent, n, path);
      assert Walk(n, path) == [v];
    } else {
      var s1 := Step(s, v);
      var dir := DirCell(n, ParseName(path), |s.cells|);
      DirectoryStep(s, rest, parent, n, path);
      DirCellIs(n, ParseName(path), |s.cells|);
      EntriesBuild(s1, rest + Again(parent), dir, n.children, path);
      RunAppend(s, [v], WalkAll(n.children, path));
      DirectoryGrown(s, Run(s1, WalkAll(n.children, path)), rest, parent, n, ParseName(path), s1);
    }
  }

  lemma {:induction false} DirCellIs(n: Node, name: Bytes, at: nat)
    requires n.Dir?
    ensures DirCell(n, name, at).fill == 0 && DirCell(n, name, at).children == at
    ensures DirCell(n, name, at).data.length == |n.children|
  {
  }

  lemma {:induction false} RunOne(s: State, v: Visit)
    ensures Run(s, [v]) == Step(s, v)
  {
    hide Step;
    assert [v][..0] == [];
    assert Run(s, []) == s;
  }

  // ---------------------------------------------------------------------------------------
  // The builder as it runs
  // ---------------------------------------------------------------------------------------

  /** The head holds the one place into which the root is inserted. */
  const HEAD := Cell(Meta([], true, 1, 0, []), 0, 0)

  const START := State([BLANK], [HEAD], 0, 0)

  /** The callback gives up on an entry that it cannot classify. */
  predicate GivesUp(v: Visit)
  {
    v.kind == Unreadable && !IsDots(ParseName(v.path))
  }

  predicate NoneGivesUp(vs: seq<Visit>)
  {
    forall i :: 0 <= i < |vs| ==> !GivesUp(vs[i])
  }

  class Builder {
    var cells: seq<Cell>
    var directories: seq<Cell>
    var headerCount: nat
    var subitemsCount: nat

    constructor ()
      ensures Now() == START
    {
      cells := [BLANK];
      directories := [HEAD];
      headerCount := 0;
      subitemsCount := 0;
    }

    ghost function Now(): State
      reads this
    {
      State(cells, directories, headerCount, subitemsCount)
    }

    /** Pops the parent, writes the cell at its next place, allocates the children of the cell, and
    pushes the parent again unless it is full, then the cell if it has children. */
    method Insert(child: Cell)
      requires directories != []
      modifies `cells, `directories
      ensures var parent := old(directories[|directories| - 1]);
              && cells == Put(old(cells), parent.children + parent.fill, child) +
                          Blanks(if child.data.isDir then child.data.length else 0)
              && directories == old(directories)[..|old(directories)| - 1] + Again(parent) +
                                (if child.data.isDir && child.data.length != 0 then [child] else [])
    {
      var parent := directories[|directories| - 1];
      directories := directories[..|directories| - 1];
      cells := Put(cells, parent.children + parent.fill, child);
      if child.data.isDir {
        cells := cells + Blanks(child.data.length);
      }
      parent := parent.(fill := parent.fill + 1);
      if parent.fill != parent.data.length {
        directories := directories + [parent];
      }
      if child.data.isDir && child.data.length != 0 {
        directories := directories + [child];
      }
    }

    /** One callback of the tree walk. */
    method SBuilder(v: Visit) returns (status: int)
      modifies this
      ensures Now() == Step(old(Now()), v)
      ensures status == if GivesUp(v) then 7 else 0
    {
      hide Put, Again, Blanks, ParseName;
      var name := ParseName(v.path);
      if IsDots(name) {
        return 0;
      }
      headerCount := headerCount + 1;
      match v.kind {
        case Directory =>
          subitemsCount := subitemsCount + v.entries;
          if directories != [] {
            Insert(Cell(Meta(name, true, v.entries, v.time, []), |cells|, 0));
          }
          status := 0;
        case PlainFile =>
          InsertFile(name, v);
          status := 0;
        case SymLink =>
          InsertFile(name, v);
          status := 0;
        case Unreadable =>
          status := 7;
      }
    }

    method InsertFile(name: Bytes, v: Visit)
      modifies `cells, `directories
      ensures old(directories) == [] ==> cells == old(cells) && directories == []
      ensures old(directories) != [] ==>
                var parent := old(directories[|directories| - 1]);
                var child := Cell(Meta(name, false, |v.content|, v.time, v.content), 0, -1);
                && cells == Put(old(cells), parent.children + parent.fill, child)
                && directories == old(directories)[..|old(directories)| - 1] + Again(parent)
    {
      hide Put, Again;
      if directories != [] {
        Insert(Cell(Meta(name, false, |v.content|, v.time, v.content), 0, -1));
      }
    }

    /** The walk calls back until it ends or a callback gives up. */
    method Traverse(vs: seq<Visit>) returns (status: int)
      modifies this
      ensures NoneGivesUp(vs) ==> status == 0 && Now() == Run(old(Now()), vs)
      ensures !NoneGivesUp(vs) ==>
                && status == 7
                && exists i :: 0 <= i < |vs| && GivesUp(vs[i]) && NoneGivesUp(vs[..i]) && Now() == Run(old(Now()), vs[..i + 1])
    {
      hide Step, GivesUp;
      var i := 0;
      while i < |vs|
        invariant 0 <= i <= |vs|
        invariant NoneGivesUp(vs[..i])
        invariant Now() == Run(old(Now()), vs[..i])
      {
        status := SBuilder(vs[i]);
        assert vs[..i + 1][..i] == vs[..i];
        if status != 0 {
          assert GivesUp(vs[i]);
          return;
        }
        i := i + 1;
      }
      assert vs[..i] == vs;
      status := 0;
    }
  }

  /** The walk of a whole tree leaves an empty stack, the tree below the head, and counters from
  which the exact size of its header region follows. */
  lemma {:induction false} TreeBuilt(n: Node, path: Bytes)
    requires Visible(n) && ParseName(path) == ParseName(n.name)
    ensures var s := Run(START, Walk(n, path));
            && s.stack == [] && |s.cells| >= 1
            && Represents(s.cells, 1, |s.cells|, s.cells[0], Renamed(n))
            && s.headers == Count(n) && s.subitems == Count(n) - 1
            && HEADER_SIZE * s.headers + 8 * s.subitems == HeaderSpace(Renamed(n))
  {
    hide Represents, Renamed, ParseName, Walk, Visible, Run, Kept, Step, Count, HeaderSpace;
    WalkBuilds(START, [], HEAD, n, path);
    assert Again(HEAD) == [];
    RenamedCount(n);
    HeaderSpaceIsCount(Renamed(n));
  }

  lemma {:induction false} RenamedCount(n: Node)
    ensures Count(Renamed(n)) == Count(n)
    decreases n
  {
    hide ParseName;
    if n.Dir? {
      RenamedCounts(n.children);
    }
  }

  lemma {:induction false} RenamedCounts(ns: seq<Node>)
    ensures Counts(RenamedAll(ns)) == Counts(ns)
    decreases ns
  {
    hide Renamed;
    if ns != [] {
      var init := ns[..|ns| - 1];
      RenamedCounts(init);
      RenamedCount(ns[|ns| - 1]);
      var r := RenamedAll(ns);
      assert r[..|r| - 1] == RenamedAll(init) && r[|r| - 1] == Renamed(ns[|ns| - 1]);
    }
  }

  lemma {:induction false} WalkGivesUpNowhere(n: Node, path: Bytes)
    ensures NoneGivesUp(Walk(n, path))
    decreases n
  {
    hide WalkAll, NoneGivesUp, ParseName;
    VisitGoesOn(n, path);
    if n.Dir? {
      WalkAllGivesUpNowhere(n.children, path);
      NoneGivesUpAppend([VisitOf(n, path)], WalkAll(n.children, path));
    } else {
      assert Walk(n, path) == [VisitOf(n, path)];
    }
  }

  lemma {:induction false} WalkAllGivesUpNowhere(ns: seq<Node>, path: Bytes)
    ensures NoneGivesUp(WalkAll(ns, path))
    decreases ns
  {
    hide Walk, Below, GivesUp;
    if ns != [] {
      var init, last := ns[..|ns| - 1], ns[|ns| - 1];
      WalkAllGivesUpNowhere(init, path);
      WalkGivesUpNowhere(last, Below(path, last.name));
      NoneGivesUpAppend(WalkAll(init, path), Walk(last, Below(path, last.name)));
    }
  }

  lemma {:induction false} VisitGoesOn(n: Node, path: Bytes)
    ensures NoneGivesUp([VisitOf(n, path)])
  {
  }

  lemma {:induction false} NoneGivesUpAppend(vs: seq<Visit>, ws: seq<Visit>)
    requires NoneGivesUp(vs) && NoneGivesUp(ws)
    ensures NoneGivesUp(vs + ws)
  {
    hide GivesUp;
  }

  // ---------------------------------------------------------------------------------------
  // When nothing is skipped
  // ---------------------------------------------------------------------------------------

  /** How many callbacks are not skipped. */
  function Taken(vs: seq<Visit>): nat
  {
    if vs == [] then 0 else Taken(vs[..|vs| - 1]) + if IsDots(ParseName(vs[|vs| - 1].path)) then 0 else 1
  }

  lemma {:induction false} HeadersCountTaken(s: State, vs: seq<Visit>)
    ensures Run(s, vs).headers == s.headers + Taken(vs)
    decreases |vs|
  {
    hide ParseName, Put, Again, Blanks;
    if vs != [] {
      HeadersCountTaken(s, vs[..|vs| - 1]);
    }
  }

  lemma {:induction false} TakenAppend(vs: seq<Visit>, ws: seq<Visit>)
    ensures Taken(vs + ws) == Taken(vs) + Taken(ws)
    decreases |ws|
  {
    hide ParseName, IsDots;
    if ws == [] {
      assert vs + ws == vs;
    } else {
      TakenAppend(vs, ws[..|ws| - 1]);
      assert (vs + ws)[..|vs + ws| - 1] == vs + ws[..|ws| - 1];
    }
  }

  lemma {:induction false} TakenOne(v: Visit)
    ensures Taken([v]) == if IsDots(ParseName(v.path)) then 0 else 1
  {
    hide ParseName, IsDots;
    assert [v][..0] == [];
    assert Taken([]) == 0;
  }

  lemma {:induction false} TakenWalk(n: Node, path: Bytes)
    requires ParseName(path) == ParseName(n.name)
    ensures Taken(Walk(n, path)) <= Count(n)
    ensures Taken(Walk(n, path)) == Count(n) <==> Visible(n)
    decreases n
  {
    hide ParseName, IsDots, Taken, WalkAll, VisibleAll, Counts;
    var v := VisitOf(n, path);
    TakenOne(v);
    if n.Dir? {
      TakenWalkAll(n.children, path);
      TakenAppend([v], WalkAll(n.children, path));
    } else {
      assert Walk(n, path) == [v];
    }
  }

  lemma {:induction false} TakenWalkAll(ns: seq<Node>, path: Bytes)
    ensures Taken(WalkAll(ns, path)) <= Counts(ns)
    ensures Taken(WalkAll(ns, path)) == Counts(ns) <==> VisibleAll(ns)
    decreases ns
  {
    hide ParseName, IsDots, Walk, Visible, Count, Below;
    if ns != [] {
      hide Taken;
      var init, last := ns[..|ns| - 1], ns[|ns| - 1];
      TakenWalkAll(init, path);
      NameBelow(path, last.name);
      TakenWalk(last, Below(path, last.name));
      TakenAppend(WalkAll(init, path), Walk(last, Below(path, last.name)));
    }
  }

  /** The walk of a tree counts all its nodes exactly if no node is skipped. */
  lemma {:induction false} CountedIffVisible(n: Node, path: Bytes)
    requires ParseName(path) == ParseName(n.name)
    ensures Run(START, Walk(n, path)).headers == Count(n) <==> Visible(n)
  {
    hide ParseName, Visible, Walk, Run, Count;
    HeadersCountTaken(START, Walk(n, path));
    TakenWalk(n, path);
  }

  /** No node that the walk skips is in memory. */
  predicate NoDots(cells: seq<Cell>)
  {
    forall i :: 0 <= i < |cells| ==> !IsDots(cells[i].data.name)
  }

  lemma {:induction false} StepNoDots(s: State, v: Visit)
    requires NoDots(s.cells)
    ensures NoDots(Step(s, v).cells)
  {
    hide ParseName, Again;
  }

  lemma {:induction false} RunNoDots(s: State, vs: seq<Visit>)
    requires NoDots(s.cells)
    ensures NoDots(Run(s, vs).cells)
    decreases |vs|
  {
    hide Step, NoDots;
    if vs != [] {
      RunNoDots(s, vs[..|vs| - 1]);
      StepNoDots(Run(s, vs[..|vs| - 1]), vs[|vs| - 1]);
    }
  }

  /** A tree that is in memory has no name that the walk skips. */
  lemma {:induction false} InMemoryIsVisible(cells: seq<Cell>, lo: nat, c: Cell, n: Node)
    requires NoDots(cells) && !IsDots(c.data.name) && Represents(cells, lo, |cells|, c, Renamed(n))
    ensures Visible(n)
    decreases n
  {
    hide ParseName, NoDots, IsDots, RepresentsAll, RenamedAll, VisibleAll;
    if n.Dir? {
      AllInMemoryAreVisible(cells, lo, c.children, n.children);
    }
  }

  lemma {:induction false} AllInMemoryAreVisible(cells: seq<Cell>, lo: nat, base: nat, ns: seq<Node>)
    requires base + |ns| <= |cells| && NoDots(cells) && RepresentsAll(cells, lo, |cells|, base, RenamedAll(ns))
    ensures VisibleAll(ns)
    decreases ns
  {
    hide ParseName, IsDots, Represents, Renamed, Visible;
    if ns != [] {
      var init, last := ns[..|ns| - 1], ns[|ns| - 1];
      var r := RenamedAll(ns);
      assert r[..|r| - 1] == RenamedAll(init) && r[|r| - 1] == Renamed(last);
      AllInMemoryAreVisible(cells, lo, base, init);
      InMemoryIsVisible(cells, lo, cells[base + |ns| - 1], last);
    }
  }

  /** The walk of a tree builds it exactly if no node is skipped: neither the root, as when the current
  directory itself is mastered, nor one cut down to dots. */
  lemma {:induction false} BuiltIffVisible(n: Node, path: Bytes)
    requires ParseName(path) == ParseName(n.name)
    ensures var s := Run(START, Walk(n, path));
            Visible(n) <==> |s.cells| >= 1 && Represents(s.cells, 1, |s.cells|, s.cells[0], Renamed(n))
  {
    hide ParseName, Visible, Represents, Walk, Run, Renamed, Count;
    var s := Run(START, Walk(n, path));
    RunNoDots(START, Walk(n, path));
    if Visible(n) {
      TreeBuilt(n, path);
    } else if |s.cells| >= 1 && Represents(s.cells, 1, |s.cells|, s.cells[0], Renamed(n)) {
      InMemoryIsVisible(s.cells, 1, s.cells[0], n);
    }
  }

  /** Mastering the current directory takes its first entry for the root. */
  lemma {:induction false} CurrentDirectoryIsLost(child: Node, time: nat)
    requires Visible(child)
    ensures var n := Dir([46], time, [child]);
            var s := Run(START, Walk(n, [46]));
            && !Visible(n) && |s.cells| >= 1
            && Represents(s.cells, 1, |s.cells|, s.cells[0], Renamed(child))
            && !Represents(s.cells, 1, |s.cells|, s.cells[0], Renamed(n))
  {
    hide Represents, Renamed, Run, Step, WalkAll, Count;
    var n, v := Dir([DOT], time, [child]), VisitOf(Dir([DOT], time, [child]), [DOT]);
    DotIsSkipped(v);
    assert !Visible(n);
    var path := Below([DOT], child.name);
    NameBelow([DOT], child.name);
    NoWalk([DOT]);
    WalkSnoc([], child, [DOT]);
    assert [] + [child] == [child] && [] + Walk(child, path) == Walk(child, path);
    RunOne(START, v);
    RunAppend(START, [v], Walk(child, path));
    WalkBuilds(START, [], HEAD, child, path);
    BuiltIffVisible(n, [DOT]);
  }

  lemma NoWalk(path: Bytes)
    ensures WalkAll([], path) == []
  {
  }

  lemma {:induction false} DotIsSkipped(v: Visit)
    requires v.path == [DOT]
    ensures IsDots(ParseName([DOT])) && forall s :: Step(s, v) == s
  {
    assert [DOT][..0] == [];
    assert NameStart([]) == 0;
    assert NameStart([DOT]) == 0;
  }

  // ---------------------------------------------------------------------------------------
  // When names survive
  // ---------------------------------------------------------------------------------------

  predicate NoSeparator(name: Bytes)
  {
    forall i :: 0 <= i < |name| ==> !Separator(name[i])
  }

  predicate PlainNames(n: Node)
    decreases n
  {
    NoSeparator(n.name) && (n.Dir? ==> PlainNamesAll(n.children))
  }

  predicate PlainNamesAll(ns: seq<Node>)
    decreases ns
  {
    ns == [] || (PlainNamesAll(ns[..|ns| - 1]) && PlainNames(ns[|ns| - 1]))
  }

  lemma {:induction false} ParseNameKeeps(name: Bytes)
    ensures ParseName(name) == name <==> NoSeparator(name)
  {
    NameStarts(name);
    if ParseName(name) == name {
      assert NameStart(name) == 0 || |ParseName(name)| < |name|;
    }
  }

  /** A tree is rebuilt under its own names exactly if no name holds a backslash (or a slash). */
  lemma {:induction false} RenamedIff(n: Node)
    ensures Renamed(n) == n <==> PlainNames(n)
    decreases n
  {
    hide ParseName, NoSeparator;
    ParseNameKeeps(n.name);
    if n.Dir? {
      RenamedAllIff(n.children);
    }
  }

  lemma {:induction false} RenamedAllIff(ns: seq<Node>)
    ensures RenamedAll(ns) == ns <==> PlainNamesAll(ns)
    decreases ns
  {
    hide Renamed, PlainNames;
    if ns != [] {
      var init, last := ns[..|ns| - 1], ns[|ns| - 1];
      RenamedAllIff(init);
      RenamedIff(last);
      assert ns == init + [last];
      var r := RenamedAll(ns);
      assert r[..|r| - 1] == RenamedAll(init) && r[|r| - 1] == Renamed(last);
    }
  }

  /** A file whose name holds a backslash is mastered under what follows it. */
  lemma {:induction false} BackslashIsCut(time: nat, content: Bytes)
    ensures var n := File([97, 92, 98], time, content); Renamed(n) == File([98], time, content) && Renamed(n) != n
  {
    var name: Bytes := [97, 92, 98];
    assert name[..2] == [97, 92];
    assert NameStart([97, 92]) == 2;
    assert NameStart(name) == 2;
  }
}
