/** Serving a mounted image: paths are cut into tokens, matched against the headers from the root
down, and answered from the bytes at the offsets found there. */
module Mount {
  import opened ByteString
  import opened OnDisk
  import opened Layout

  datatype Option<T> = None | Some(value: T)

  // ---------------------------------------------------------------------------------------
  // Paths
  // ---------------------------------------------------------------------------------------

  /** How many bytes come before the first slash. */
  function TokenLength(s: Bytes): (r: nat)
    ensures r <= |s|
  {
    if s == [] || s[0] == SLASH then 0 else 1 + TokenLength(s[1..])
  }

  /** The non-empty components of a path. */
  function Tokens(s: Bytes): seq<Bytes>
    decreases |s|
  {
    if s == [] then []
    else if s[0] == SLASH then Tokens(s[1..])
    else [s[..TokenLength(s)]] + Tokens(s[TokenLength(s)..])
  }

  /** The next component from a position on, and where to look for the one after it. */
  method NextToken(path: Bytes, start: nat) returns (token: Option<Bytes>, next: nat)
    requires start <= |path|
    ensures start <= next <= |path|
    ensures token == None ==> Tokens(path[start..]) == []
    ensures token.Some? ==> Tokens(path[start..]) == [token.value] + Tokens(path[next..])
  {
    hide Tokens;
    var first := start;
    while first < |path| && path[first] == SLASH
      invariant start <= first <= |path|
      invariant Tokens(path[start..]) == Tokens(path[first..])
    {
      TokensSkip(path, first);
      first := first + 1;
    }
    if first == |path| {
      TokensEnd();
      return None, first;
    }
    var end := first;
    while end < |path| && path[end] != SLASH
      invariant first <= end <= |path|
      invariant TokenLength(path[first..]) == end - first + TokenLength(path[end..])
    {
      assert path[end..][1..] == path[end + 1..];
      end := end + 1;
    }
    TokensTake(path, first, end);
    token := Some(path[first..end]);
    next := end;
    if end < |path| {
      TokensSkip(path, end);
      next := end + 1;
    }
  }

  lemma TokensEnd()
    ensures Tokens([]) == []
  {
  }

  lemma {:induction false} TokensSkip(path: Bytes, i: nat)
    requires i < |path| && path[i] == SLASH
    ensures Tokens(path[i..]) == Tokens(path[i + 1..])
  {
    assert path[i..][1..] == path[i + 1..];
  }

  lemma {:induction false} TokensTake(path: Bytes, i: nat, j: nat)
    requires i < |path| && path[i] != SLASH && TokenLength(path[i..]) == j - i && j <= |path|
    ensures i <= j && Tokens(path[i..]) == [path[i..j]] + Tokens(path[j..])
  {
    assert path[i..][..j - i] == path[i..j] && path[i..][j - i..] == path[j..];
  }

  /** Names that can be components of a path. */
  predicate IsComponent(name: Bytes)
  {
    name != [] && forall i :: 0 <= i < |name| ==> name[i] != SLASH
  }

  predicate AreComponents(names: seq<Bytes>)
  {
    forall i :: 0 <= i < |names| ==> IsComponent(names[i])
  }

  /** The absolute path with these components. */
  function PathOf(names: seq<Bytes>): Bytes
  {
    if names == [] then [] else [SLASH] + names[0] + PathOf(names[1..])
  }

  lemma {:induction false} TokenLengthOf(name: Bytes, rest: Bytes)
    requires forall i :: 0 <= i < |name| ==> name[i] != SLASH
    requires rest == [] || rest[0] == SLASH
    ensures TokenLength(name + rest) == |name|
    decreases |name|
  {
    if name == [] {
      assert name + rest == rest;
    } else {
      TokenLengthOf(name[1..], rest);
      assert (name + rest)[1..] == name[1..] + rest;
    }
  }

  /** Splitting a path undoes joining its components. */
  lemma {:induction false} TokensOfPath(names: seq<Bytes>)
    requires AreComponents(names)
    ensures Tokens(PathOf(names)) == names
    decreases |names|
  {
    hide Tokens;
    if names == [] {
      TokensEnd();
    } else {
      var name, rest, path := names[0], PathOf(names[1..]), PathOf(names);
      TokensOfPath(names[1..]);
      assert IsComponent(name);
      TokenLengthOf(name, rest);
      assert path[0..] == path && path[1..] == name + rest && path[1 + |name|..] == rest && path[1..1 + |name|] == name;
      TokensSkip(path, 0);
      TokensTake(path, 1, 1 + |name|);
      assert [name] + names[1..] == names;
    }
  }

  /** Slashes before, between and after components do not count. */
  lemma {:induction false} TokensExample()
    ensures Tokens([47, 47, 97, 47]) == [[97]]
  {
    var path: Bytes := [47, 47, 97, 47];
    hide Tokens;
    assert path[0..] == path && path[2..] == [97, 47] && path[4..] == [];
    TokensSkip(path, 0);
    TokensSkip(path, 1);
    TokenLengthOf([97], [47]);
    assert [97] + [47] == path[2..];
    TokensTake(path, 2, 3);
    TokensSkip(path, 3);
    TokensEnd();
  }

  // ---------------------------------------------------------------------------------------
  // Looking up a path
  // ---------------------------------------------------------------------------------------

  /** The first sibling of a name, or the number of siblings. */
  function FirstNamed(ns: seq<Node>, name: Bytes): (r: nat)
    ensures r <= |ns|
    ensures forall j :: 0 <= j < r ==> ns[j].name != name
    ensures r < |ns| ==> ns[r].name == name
  {
    if ns == [] || ns[0].name == name then 0 else 1 + FirstNamed(ns[1..], name)
  }

  /** What a lookup answers. It stops at the first plain file, whatever is left of the path. */
  function Lookup(p: Place, tokens: seq<Bytes>): Option<Place>
    decreases |tokens|
  {
    if tokens == [] then Some(p)
    else if p.node.name != tokens[0] then None
    else if |tokens| == 1 || p.node.File? then Some(p)
    else
      var k := FirstNamed(p.node.children, tokens[1]);
      if k == |p.node.children| then None else Lookup(ChildOf(p, k), tokens[1..])
  }

  /** The place reached by going from child to child. */
  predicate IsTrail(n: Node, ks: seq<nat>)
    decreases |ks|
  {
    ks == [] || (n.Dir? && ks[0] < |n.children| && IsTrail(n.children[ks[0]], ks[1..]))
  }

  function Follow(p: Place, ks: seq<nat>): Place
    requires IsTrail(p.node, ks)
    decreases |ks|
  {
    if ks == [] then p else Follow(ChildOf(p, ks[0]), ks[1..])
  }

  /** The names on the way, the first and the last included. */
  function NamesOn(n: Node, ks: seq<nat>): (r: seq<Bytes>)
    requires IsTrail(n, ks)
    ensures |r| == |ks| + 1 && r[0] == n.name
    decreases |ks|
  {
    [n.name] + if ks == [] then [] else NamesOn(n.children[ks[0]], ks[1..])
  }

  /** No two siblings share a name. */
  predicate DistinctNames(n: Node)
    decreases n
  {
    n.Dir? ==>
      && (forall i, j :: 0 <= i < j < |n.children| ==> n.children[i].name != n.children[j].name)
      && (forall k :: 0 <= k < |n.children| ==> DistinctNames(n.children[k]))
  }

  /** Every node of a tree without name clashes is found under the names that lead to it. */
  lemma {:induction false} LookupFinds(p: Place, ks: seq<nat>)
    requires DistinctNames(p.node) && IsTrail(p.node, ks)
    ensures Lookup(p, NamesOn(p.node, ks)) == Some(Follow(p, ks))
    decreases |ks|
  {
    if ks != [] {
      var k, names := ks[0], NamesOn(p.node, ks);
      var child := p.node.children[k];
      assert names[1..] == NamesOn(child, ks[1..]) && names[1] == child.name;
      var found := FirstNamed(p.node.children, child.name);
      assert found == k;
      LookupFinds(ChildOf(p, k), ks[1..]);
    }
  }

  /** What a lookup finds is named by the path, or is a plain file named by a first part of it. */
  lemma {:induction false} LookupSound(p: Place, tokens: seq<Bytes>) returns (ks: seq<nat>)
    requires tokens != [] && Lookup(p, tokens).Some?
    ensures IsTrail(p.node, ks) && Lookup(p, tokens).value == Follow(p, ks)
    ensures |ks| < |tokens| && NamesOn(p.node, ks) == tokens[..|ks| + 1]
    ensures |ks| + 1 == |tokens| || Follow(p, ks).node.File?
    decreases |tokens|
  {
    hide ChildrenStart, HeaderSpaces, DataSpaces;
    if |tokens| == 1 || p.node.File? {
      ks := [];
      assert NamesOn(p.node, ks) == tokens[..1];
    } else {
      var k := FirstNamed(p.node.children, tokens[1]);
      var rest := LookupSound(ChildOf(p, k), tokens[1..]);
      ks := [k] + rest;
      assert ks[1..] == rest;
      assert NamesOn(p.node, ks) == [p.node.name] + NamesOn(p.node.children[k], rest);
      assert tokens[..|ks| + 1] == [tokens[0]] + tokens[1..][..|rest| + 1];
    }
  }

  /** A path names the node at the end of a trail. */
  predicate Names(n: Node, ks: seq<nat>, tokens: seq<Bytes>)
  {
    IsTrail(n, ks) && NamesOn(n, ks) == tokens
  }

  predicate EndsInFile(n: Node, ks: seq<nat>)
    requires IsTrail(n, ks)
    decreases |ks|
  {
    if ks == [] then n.File? else EndsInFile(n.children[ks[0]], ks[1..])
  }

  /** The path goes on after the name of a plain file. */
  ghost predicate Overshoots(n: Node, tokens: seq<Bytes>)
  {
    exists ks :: OvershootsAt(n, ks, tokens)
  }

  predicate OvershootsAt(n: Node, ks: seq<nat>, tokens: seq<Bytes>)
  {
    |ks| + 1 < |tokens| && Names(n, ks, tokens[..|ks| + 1]) && EndsInFile(n, ks)
  }

  /** Nothing lies beyond a plain file. */
  lemma {:induction false} NothingBeyond(n: Node, ks: seq<nat>, js: seq<nat>, tokens: seq<Bytes>)
    requires DistinctNames(n) && OvershootsAt(n, ks, tokens)
    ensures !Names(n, js, tokens)
    decreases |ks|
  {
    if Names(n, js, tokens) && ks != [] {
      var j, k := js[0], ks[0];
      NamesBelow(n, ks, tokens[..|ks| + 1]);
      NamesBelow(n, js, tokens);
      assert tokens[..|ks| + 1][1..] == tokens[1..][..|ks|];
      assert n.children[j].name == tokens[1] && n.children[k].name == tokens[1];
      assert j == k;
      NothingBeyond(n.children[k], ks[1..], js[1..], tokens[1..]);
    }
  }

  lemma {:induction false} NamesBelow(n: Node, ks: seq<nat>, tokens: seq<Bytes>)
    requires ks != [] && Names(n, ks, tokens)
    ensures |tokens| >= 2 && Names(n.children[ks[0]], ks[1..], tokens[1..])
    ensures n.children[ks[0]].name == tokens[1]
  {
    assert tokens[1..] == NamesOn(n.children[ks[0]], ks[1..]);
  }

  lemma {:induction false} LookupOvershoots(p: Place, ks: seq<nat>, tokens: seq<Bytes>)
    requires DistinctNames(p.node) && OvershootsAt(p.node, ks, tokens)
    ensures Lookup(p, tokens).Some?
    decreases |ks|
  {
    var n := p.node;
    if ks != [] {
      var k := ks[0];
      NamesBelow(n, ks, tokens[..|ks| + 1]);
      assert tokens[..|ks| + 1][1..] == tokens[1..][..|ks|];
      assert FirstNamed(n.children, tokens[1]) == k;
      LookupOvershoots(ChildOf(p, k), ks[1..], tokens[1..]);
    }
  }

  /** A lookup succeeds for exactly the paths that name a node, if and only if the path does not go
  on after the name of a plain file. */
  lemma {:induction false} LookupExactIff(p: Place, tokens: seq<Bytes>)
    requires DistinctNames(p.node) && tokens != []
    ensures (Lookup(p, tokens).Some? <==> exists ks :: Names(p.node, ks, tokens)) <==> !Overshoots(p.node, tokens)
  {
    hide Lookup, Names, OvershootsAt, DistinctNames;
    if Overshoots(p.node, tokens) {
      var ks :| OvershootsAt(p.node, ks, tokens);
      LookupOvershoots(p, ks, tokens);
      forall js
        ensures !Names(p.node, js, tokens)
      {
        NothingBeyond(p.node, ks, js, tokens);
      }
    } else {
      if Lookup(p, tokens).Some? {
        LookupNames(p, tokens);
      }
      forall ks | Names(p.node, ks, tokens)
        ensures Lookup(p, tokens).Some?
      {
        NamesFound(p, ks, tokens);
      }
    }
  }

  lemma {:induction false} NamesFound(p: Place, ks: seq<nat>, tokens: seq<Bytes>)
    requires DistinctNames(p.node) && Names(p.node, ks, tokens)
    ensures Lookup(p, tokens).Some?
  {
    hide Lookup, DistinctNames, IsTrail, Follow;
    LookupFinds(p, ks);
  }

  lemma {:induction false} LookupNames(p: Place, tokens: seq<Bytes>)
    requires tokens != [] && Lookup(p, tokens).Some? && !Overshoots(p.node, tokens)
    ensures exists ks :: Names(p.node, ks, tokens)
  {
    hide Lookup, IsTrail, Follow, Overshoots;
    var ks := LookupSound(p, tokens);
    FollowEnds(p, ks);
    assert tokens[..|tokens|] == tokens;
    if |ks| + 1 == |tokens| {
      assert Names(p.node, ks, tokens);
    } else {
      OvershootsHere(p.node, ks, tokens);
    }
  }

  lemma {:induction false} OvershootsHere(n: Node, ks: seq<nat>, tokens: seq<Bytes>)
    requires OvershootsAt(n, ks, tokens)
    ensures Overshoots(n, tokens)
  {
  }

  lemma {:induction false} FollowEnds(p: Place, ks: seq<nat>)
    requires IsTrail(p.node, ks)
    ensures Follow(p, ks).node.File? == EndsInFile(p.node, ks)
    decreases |ks|
  {
    if ks != [] {
      FollowEnds(ChildOf(p, ks[0]), ks[1..]);
    }
  }

  /** A name after that of a plain file names nothing and is found all the same. */
  lemma {:induction false} BeyondAFile(dir: Name, file: Name, content: Bytes, more: Bytes)
    ensures var n, tokens := Dir(dir, 0, [File(file, 0, content)]), [dir, file, more];
            Lookup(Root(n), tokens).Some? && forall ks :: !Names(n, ks, tokens)
  {
    var n, tokens, ks: seq<nat> := Dir(dir, 0, [File(file, 0, content)]), [dir, file, more], [0];
    assert tokens[..2] == [dir, file] && ks[1..] == [];
    assert IsTrail(n.children[0], []) && IsTrail(n, ks);
    assert NamesOn(n.children[0], []) == [file];
    assert OvershootsAt(n, ks, tokens);
    LookupOvershoots(Root(n), ks, tokens);
    forall js
      ensures !Names(n, js, tokens)
    {
      NothingBeyond(n, ks, js, tokens);
    }
  }

  // ---------------------------------------------------------------------------------------
  // Answers from the bytes of any image
  // ---------------------------------------------------------------------------------------

  /** An answer, or that there is none, or that finding it leaves the file. */
  datatype Reply<T> = Beyond | Absent | Found(value: T)

  function HeaderIn(image: Bytes, offset: nat): Reply<Header>
  {
    if offset + HEADER_SIZE <= |image| then Found(ParseHeader(image[offset..offset + HEADER_SIZE])) else Beyond
  }

  /** The header of the `i`-th entry of a directory. */
  function EntryIn(image: Bytes, dir: Header, i: nat): Reply<Header>
  {
    var at := dir.offset + 8 * i;
    if i < TWO32 && at + 8 <= |image| then HeaderIn(image, FromBigEndian(image[at..at + 8])) else Beyond
  }

  /** The first entry of a name from the `i`-th on. */
  function EntryNamed(image: Bytes, dir: Header, name: Bytes, i: nat): Reply<Header>
    decreases dir.length - i
  {
    if i >= dir.length then Absent
    else
      var entry := EntryIn(image, dir, i);
      if entry.Found? && entry.value.name != name then EntryNamed(image, dir, name, i + 1) else entry
  }

  /** What the tokens lead to from a header on. */
  function FindFrom(image: Bytes, current: Header, tokens: seq<Bytes>): Reply<Header>
    decreases |tokens|
  {
    if tokens == [] then Found(current)
    else if current.name != tokens[0] then Absent
    else if |tokens| == 1 || current.kind == PLAIN_FILE then Found(current)
    else
      var entry := EntryNamed(image, current, tokens[1], 0);
      if entry.Found? then FindFrom(image, entry.value, tokens[1..]) else entry
  }

  function FindIn(image: Bytes, tokens: seq<Bytes>): Reply<Header>
  {
    var root := HeaderIn(image, 0);
    if root.Found? then FindFrom(image, root.value, tokens) else root
  }

  /** The names of the first `n` entries of a directory. */
  function EntryNames(image: Bytes, dir: Header, n: nat): Reply<seq<Bytes>>
  {
    if n == 0 then Found([])
    else
      var names, entry := EntryNames(image, dir, n - 1), EntryIn(image, dir, n - 1);
      if names.Found? && entry.Found? then Found(names.value + [entry.value.name]) else Beyond
  }

  const DOTS: seq<Bytes> := [[DOT], [DOT, DOT]]

  function ListIn(image: Bytes, path: Bytes): Reply<seq<Bytes>>
  {
    if path == [SLASH] then
      var root := HeaderIn(image, 0);
      if root.Found? then Found(DOTS + [root.value.name]) else Beyond
    else
      match FindIn(image, Tokens(path))
      case Beyond => Beyond
      case Absent => Absent
      case Found(dir) =>
        if dir.kind != DIRECTORY then Absent
        else
          var names := EntryNames(image, dir, dir.length);
          if names.Found? then Found(DOTS + names.value) else Beyond
  }

  /** The bytes that a read request is answered with. */
  function Window(content: Bytes, offset: int, size: nat): (r: Bytes)
    ensures 0 <= offset < |content| ==> |r| == if size < |content| - offset then size else |content| - offset
    ensures !(0 <= offset < |content|) ==> r == []
    ensures forall i :: 0 <= i < |r| ==> r[i] == content[offset + i]
  {
    if 0 <= offset < |content| then content[offset..if offset + size > |content| then |content| else offset + size] else []
  }

  /** What reads of a fixed size give from an offset on, one after the other until nothing comes. */
  function ReadsFrom(content: Bytes, offset: nat, size: nat): Bytes
    requires size > 0
    decreases |content| - offset
  {
    if offset >= |content| then [] else Window(content, offset, size) + ReadsFrom(content, offset + size, size)
  }

  /** Consecutive reads of any size, joined, give the content. */
  lemma {:induction false} ReadsJoin(content: Bytes, offset: nat, size: nat)
    requires size > 0 && offset <= |content|
    ensures ReadsFrom(content, offset, size) == content[offset..]
    decreases |content| - offset
  {
    if offset + size < |content| {
      ReadsJoin(content, offset + size, size);
      assert content[offset..] == content[offset..offset + size] + content[offset + size..];
    } else if offset < |content| {
      assert ReadsFrom(content, offset + size, size) == [];
      assert Window(content, offset, size) == content[offset..];
    }
  }

  function ReadIn(image: Bytes, path: Bytes, size: nat, offset: int): Reply<Bytes>
  {
    match FindIn(image, Tokens(path))
    case Beyond => Beyond
    case Absent => Absent
    case Found(file) =>
      if file.kind != PLAIN_FILE then Absent
      else if file.offset + file.length > |image| then Beyond
      else Found(Window(image[file.offset..file.offset + file.length], offset, size))
  }

  /** An answer in terms of success and error. */
  function Answer<T>(reply: Reply<T>): Option<T>
  {
    if reply.Found? then Some(reply.value) else None
  }

  class Mounter {
    const fp: InputFile

    constructor (image: Bytes)
      ensures fp.bytes == image && fresh(fp)
    {
      fp := new InputFile(image);
    }

    /** Reads a header, field by field. */
    method ReadHeader(offset: nat) returns (header: Header)
      requires HeaderIn(fp.bytes, offset) != Beyond
      modifies fp
      ensures Found(header) == HeaderIn(fp.bytes, offset)
    {
      hide FromBigEndian, CString;
      ghost var s := fp.bytes[offset..offset + HEADER_SIZE];
      fp.Seek(offset);
      var name := fp.Read(256);
      fp.Seek(offset + 256);
      var length := fp.Read64();
      var time := fp.Read64();
      var data := fp.Read64();
      var kind := fp.Read32();
      header := Header(CString(name), length, time, data, kind);
      SliceSlice(fp.bytes, offset, offset + HEADER_SIZE, 0, 256);
      SliceSlice(fp.bytes, offset, offset + HEADER_SIZE, 256, 264);
      SliceSlice(fp.bytes, offset, offset + HEADER_SIZE, 264, 272);
      SliceSlice(fp.bytes, offset, offset + HEADER_SIZE, 272, 280);
      SliceSlice(fp.bytes, offset, offset + HEADER_SIZE, 280, 284);
      assert s[..256] == s[0..256];
    }

    /** Reads the header of the `i`-th entry of a directory. */
    method ReadEntry(dir: Header, i: nat) returns (child: Header)
      requires EntryIn(fp.bytes, dir, i) != Beyond
      modifies fp
      ensures Found(child) == EntryIn(fp.bytes, dir, i)
    {
      hide FromBigEndian, HeaderIn;
      fp.Seek(dir.offset + i * 8);
      var next := fp.Read64();
      child := ReadHeader(next);
    }

    method FindEntry(dir: Header, token: Bytes) returns (r: Option<Header>)
      requires EntryNamed(fp.bytes, dir, token, 0) != Beyond
      modifies fp
      ensures r == Answer(EntryNamed(fp.bytes, dir, token, 0))
    {
      hide EntryIn;
      var i := 0;
      while i < dir.length
        invariant 0 <= i <= dir.length
        invariant EntryNamed(fp.bytes, dir, token, i) == EntryNamed(fp.bytes, dir, token, 0)
      {
        var child := ReadEntry(dir, i);
        if child.name == token {
          return Some(child);
        }
        i := i + 1;
      }
      return None;
    }

    /** The header of what a path leads to. */
    method Find(path: Bytes) returns (r: Option<Header>)
      requires FindIn(fp.bytes, Tokens(path)) != Beyond
      modifies fp
      ensures r == Answer(FindIn(fp.bytes, Tokens(path)))
    {
      hide Tokens, EntryNamed;
      ghost var tokens := Tokens(path);
      assert path[0..] == path;
      var token, pos := NextToken(path, 0);
      var current := ReadHeader(0);
      ghost var rest := tokens;
      while token.Some?
        invariant pos <= |path|
        invariant rest == if token.Some? then [token.value] + Tokens(path[pos..]) else []
        invariant FindIn(fp.bytes, tokens) == FindFrom(fp.bytes, current, rest)
        decreases |rest|
      {
        if current.name != token.value {
          return None;
        }
        ghost var left := Tokens(path[pos..]);
        assert rest[1..] == left;
        token, pos := NextToken(path, pos);
        if token.None? {
          break;
        }
        if current.kind == PLAIN_FILE {
          return Some(current);
        }
        var child := FindEntry(current, token.value);
        if child.None? {
          return None;
        }
        current := child.value;
        rest := left;
      }
      return Some(current);
    }

    /** Lists a directory. The mount point holds the root of the image as its only entry. */
    method ReadDir(path: Bytes) returns (r: Option<seq<Bytes>>)
      requires ListIn(fp.bytes, path) != Beyond
      modifies fp
      ensures r == Answer(ListIn(fp.bytes, path))
    {
      hide Tokens, FindIn, HeaderIn, EntryIn, EntryNames;
      if path == [SLASH] {
        var header := ReadHeader(0);
        assert [[DOT], [DOT, DOT], header.name] == DOTS + [header.name];
        return Some([[DOT], [DOT, DOT], header.name]);
      }
      var found := Find(path);
      if found.None? || found.value.kind != DIRECTORY {
        return None;
      }
      var dir := found.value;
      var entries: seq<Bytes> := [[DOT], [DOT, DOT]];
      var i := 0;
      NamesReadable(fp.bytes, dir, 0, dir.length);
      while i < dir.length
        invariant 0 <= i <= dir.length
        invariant EntryNames(fp.bytes, dir, i).Found? && entries == DOTS + EntryNames(fp.bytes, dir, i).value
      {
        NamesReadable(fp.bytes, dir, i + 1, dir.length);
        var child := ReadEntry(dir, i);
        entries := entries + [child.name];
        i := i + 1;
      }
      return Some(entries);
    }

    /** Reads part of a file: the whole content is fetched, then cut to the request. */
    method MountRead(path: Bytes, size: nat, offset: int) returns (r: Option<Bytes>)
      requires ReadIn(fp.bytes, path, size, offset) != Beyond && |fp.bytes| < TWO64 / 2
      requires size < TWO64 / 2 && -(TWO64 / 2) <= offset < TWO64 / 2
      modifies fp
      ensures r == Answer(ReadIn(fp.bytes, path, size, offset))
      ensures match FindIn(fp.bytes, Tokens(path))
              case Found(file) =>
                if file.kind != PLAIN_FILE then r == None
                else
                  && r.Some?
                  && |r.value| == (if offset < 0 || offset >= file.length then 0
                                   else if size < file.length - offset then size else file.length - offset)
                  && file.offset + file.length <= |fp.bytes|
                  && forall i :: 0 <= i < |r.value| ==> r.value[i] == fp.bytes[file.offset + offset + i]
              case _ => r == None
    {
      hide Tokens, FindIn, Window;
      var found := Find(path);
      if found.None? || found.value.kind != PLAIN_FILE {
        return None;
      }
      var header := found.value;
      var length := header.length;
      fp.Seek(header.offset);
      var data := fp.Read(length);
      var part := CutToRequest(data, size, offset);
      r := Some(part);
      PartOf(fp.bytes, header.offset, length, offset, size);
    }

    /** The part of the fetched content that was asked for. Offsets and sizes are unsigned here. */
    static method CutToRequest(data: Bytes, size: nat, offset: int) returns (part: Bytes)
      requires |data| < TWO64 / 2 && size < TWO64 / 2 && -(TWO64 / 2) <= offset < TWO64 / 2
      ensures part == Window(data, offset, size)
    {
      var len := |data|;
      var from := if offset < 0 then offset + TWO64 else offset;
      if from < len {
        var count := if (offset + size) % TWO64 > len then len - offset else size;
        part := data[offset..offset + count];
      } else {
        part := [];
      }
    }
  }

  lemma {:induction false} PartOf(image: Bytes, at: nat, length: nat, offset: int, size: nat)
    requires at + length <= |image|
    ensures var r := Window(image[at..at + length], offset, size);
            && |r| == (if offset < 0 || offset >= length then 0 else if size < length - offset then size else length - offset)
            && forall i :: 0 <= i < |r| ==> r[i] == image[at + offset + i]
  {
  }

  /** If the first `n` entries can be read, so can fewer; and their names grow one by one. */
  lemma {:induction false} NamesReadable(image: Bytes, dir: Header, k: nat, n: nat)
    requires k <= n && EntryNames(image, dir, n).Found?
    ensures EntryNames(image, dir, k).Found?
    ensures k == 0 ==> EntryNames(image, dir, k).value == []
    ensures k > 0 ==> EntryIn(image, dir, k - 1).Found? && EntryNames(image, dir, k - 1).Found? &&
                      EntryNames(image, dir, k).value == EntryNames(image, dir, k - 1).value + [EntryIn(image, dir, k - 1).value.name]
    decreases n
  {
    hide EntryIn;
    if k < n {
      NamesReadable(image, dir, k, n - 1);
    }
  }

  // ---------------------------------------------------------------------------------------
  // The image of a tree answers as the tree does
  // ---------------------------------------------------------------------------------------

  function NamesOf(ns: seq<Node>): (r: seq<Bytes>)
    ensures |r| == |ns|
  {
    seq(|ns|, i requires 0 <= i < |ns| => ns[i].name)
  }

  /** What a place says about itself. */
  function HeaderAt(p: Place): Header
  {
    HeaderOf(p.node, p.h, p.g)
  }

  ghost predicate Known(image: Bytes, p: Place)
  {
    Placed(image, p) && Fits(p)
  }

  lemma {:induction false} KnownHeader(image: Bytes, p: Place)
    requires Known(image, p)
    ensures HeaderIn(image, p.h) == Found(HeaderAt(p))
  {
    hide Placed, Fits, ParseHeader;
    HeaderRead(image, p);
  }

  lemma {:induction false} KnownEntry(image: Bytes, p: Place, k: nat)
    requires Known(image, p) && p.node.Dir? && k < |p.node.children|
    ensures EntryIn(image, HeaderAt(p), k) == Found(HeaderAt(ChildOf(p, k))) && Known(image, ChildOf(p, k))
  {
    hide Placed, HeaderIn, FromBigEndian, Timed, Counts, HeaderSpace, DataSpace;
    ChildRead(image, p, k);
    KnownHeader(image, ChildOf(p, k));
    CountsLength(p.node.children);
  }

  lemma {:induction false} KnownNamed(image: Bytes, p: Place, name: Bytes, i: nat)
    requires Known(image, p) && p.node.Dir? && i <= FirstNamed(p.node.children, name)
    ensures var k := FirstNamed(p.node.children, name);
            if k == |p.node.children| then EntryNamed(image, HeaderAt(p), name, i) == Absent
            else EntryNamed(image, HeaderAt(p), name, i) == Found(HeaderAt(ChildOf(p, k))) && Known(image, ChildOf(p, k))
    decreases |p.node.children| - i
  {
    hide Known, EntryIn, ChildOf;
    if i < |p.node.children| {
      KnownEntry(image, p, i);
      ChildNode(p, i);
      if p.node.children[i].name != name {
        KnownNamed(image, p, name, i + 1);
      }
    }
  }

  /** On the image of a tree the search from a place answers as the lookup in the tree does. */
  lemma {:induction false} FindAgrees(image: Bytes, p: Place, tokens: seq<Bytes>)
    requires Known(image, p)
    ensures match Lookup(p, tokens)
            case None => FindFrom(image, HeaderAt(p), tokens) == Absent
            case Some(q) => FindFrom(image, HeaderAt(p), tokens) == Found(HeaderAt(q)) && Known(image, q)
    decreases |tokens|
  {
    hide Known, EntryNamed, ChildOf;
    if |tokens| > 1 && p.node.name == tokens[0] && p.node.Dir? {
      var k := FirstNamed(p.node.children, tokens[1]);
      KnownNamed(image, p, tokens[1], 0);
      if k < |p.node.children| {
        FindAgrees(image, ChildOf(p, k), tokens[1..]);
      }
    }
  }

  lemma {:induction false} RootFound(image: Bytes, root: Node, tokens: seq<Bytes>)
    requires Known(image, Root(root))
    ensures match Lookup(Root(root), tokens)
            case None => FindIn(image, tokens) == Absent
            case Some(q) => FindIn(image, tokens) == Found(HeaderAt(q)) && Known(image, q)
  {
    hide Known, FindFrom, Lookup, HeaderIn, Root;
    RootAt(root);
    KnownHeader(image, Root(root));
    FindAgrees(image, Root(root), tokens);
  }

  lemma {:induction false} KnownNames(image: Bytes, p: Place, n: nat)
    requires Known(image, p) && p.node.Dir? && n <= |p.node.children|
    ensures EntryNames(image, HeaderAt(p), n) == Found(NamesOf(p.node.children[..n]))
    decreases n
  {
    hide Known, EntryIn, ChildOf;
    if n > 0 {
      KnownNames(image, p, n - 1);
      KnownEntry(image, p, n - 1);
      ChildNode(p, n - 1);
      assert NamesOf(p.node.children[..n]) == NamesOf(p.node.children[..n - 1]) + [p.node.children[n - 1].name];
    }
  }

  /** On the image of a tree, listing gives the entries of a directory in order, the root at the mount
  point, and an error for everything else. */
  lemma {:induction false} ListAgrees(image: Bytes, root: Node, path: Bytes)
    requires Known(image, Root(root))
    ensures path == [SLASH] ==> ListIn(image, path) == Found(DOTS + [root.name])
    ensures path != [SLASH] ==>
              match Lookup(Root(root), Tokens(path))
              case None => ListIn(image, path) == Absent
              case Some(p) => ListIn(image, path) == if p.node.Dir? then Found(DOTS + NamesOf(p.node.children)) else Absent
  {
    hide Known, Lookup, HeaderIn, FindIn, Root, Tokens, EntryNames;
    RootAt(root);
    KnownHeader(image, Root(root));
    RootFound(image, root, Tokens(path));
    var found := Lookup(Root(root), Tokens(path));
    if found.Some? && found.value.node.Dir? {
      var p := found.value;
      KnownNames(image, p, |p.node.children|);
      assert p.node.children[..|p.node.children|] == p.node.children;
    }
  }

  /** On the image of a tree, reading gives the requested part of the content of a file that is copied,
  and an error for everything that is no file. */
  lemma {:induction false} ReadAgrees(image: Bytes, root: Node, path: Bytes, size: nat, offset: int)
    requires Known(image, Root(root)) && HeaderSpace(root) + DataSpace(root) <= |image|
    ensures match Lookup(Root(root), Tokens(path))
            case None => ReadIn(image, path, size, offset) == Absent
            case Some(p) =>
              if p.node.Dir? then ReadIn(image, path, size, offset) == Absent
              else
                && p.g + |p.node.content| <= |image|
                && ReadIn(image, path, size, offset) == Found(Window(image[p.g..p.g + |p.node.content|], offset, size))
                && (Copied(|p.node.content|) || p.node.content == [] ==>
                      ReadIn(image, path, size, offset) == Found(Window(p.node.content, offset, size)))
  {
    hide Known, Lookup, FindIn, Root, Tokens, HeaderSpace, Copied;
    RootAt(root);
    RootFound(image, root, Tokens(path));
    var found := Lookup(Root(root), Tokens(path));
    if found.Some? && found.value.node.File? {
      LookupInside(Root(root), Tokens(path));
      KnownContent(image, found.value);
    }
  }

  lemma {:induction false} KnownContent(image: Bytes, p: Place)
    requires p.node.File? && Known(image, p)
    ensures |p.node.content| < TWO64 / 2
    ensures Copied(|p.node.content|) ==>
              p.g + |p.node.content| <= |image| && image[p.g..p.g + |p.node.content|] == p.node.content
  {
    hide Placed, Copied, Timed, Count;
    ContentRead(image, p);
  }

  /** What is found lies within what was searched, and is copied if all of that is. */
  lemma {:induction false} LookupInside(p: Place, tokens: seq<Bytes>)
    requires Lookup(p, tokens).Some?
    ensures var q := Lookup(p, tokens).value;
            && q.g + DataSpace(q.node) <= p.g + DataSpace(p.node)
            && (AllCopied(p.node) ==> AllCopied(q.node))
    decreases |tokens|
  {
    if tokens != [] && |tokens| != 1 && p.node.Dir? {
      hide HeaderSpaces, DataSpaces;
      var k := FirstNamed(p.node.children, tokens[1]);
      SpacesChild(p.node.children, k);
      LookupInside(ChildOf(p, k), tokens[1..]);
    }
  }

  lemma {:induction false} ChildNode(p: Place, k: nat)
    requires p.node.Dir? && k < |p.node.children|
    ensures ChildOf(p, k).node == p.node.children[k]
  {
  }

  lemma {:induction false} RootAt(n: Node)
    ensures Root(n).h == 0 && Root(n).node == n && Root(n).g == HeaderSpace(n)
  {
  }
}
