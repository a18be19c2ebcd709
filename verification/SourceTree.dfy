/**
 A directory tree with symbolic links, as a finite graph: a path resolves to a
 canonical directory, and links may make cycles. What the walk of a bundle must
 find is stated on paths alone.
 */
module SourceTree {
  import opened Basics
  import opened Strings
  import opened Sorting

  type Name = Bytes
  type Path = seq<Name>
  type Node = nat

  /** `SubDir` is what a name that is a directory, or a link to one, resolves to;
      anything else, a broken link included, is `Other`. */
  datatype Entry = SubDir(name: Name, node: Node) | Other(name: Name)

  /** The directories that can be read, with their entries in listing order. Paths
      are relative to `root`. */
  datatype Fs = Fs(root: Node, dirs: map<Node, seq<Entry>>)

  ghost predicate ValidFs(fs: Fs) {
    forall n :: n in fs.dirs ==> DistinctEntries(fs.dirs[n])
  }

  ghost predicate DistinctEntries(entries: seq<Entry>) {
    forall i, j :: 0 <= i < j < |entries| ==> entries[i].name != entries[j].name
  }

  const LUA: Bytes := [0x6C, 0x75, 0x61]

  /** `Path::extension` is `lua`: the text after the last dot, which is not the first byte. */
  predicate HasLuaExtension(name: Name) {
    var dot := LastIndexOf(name, 0x2E);
    0 < dot < |name| && name[dot + 1..] == LUA
  }

  /** Exactly the names longer than `.lua` that end in it. */
  lemma LuaExtensionIff(name: Name)
    ensures HasLuaExtension(name) <==> |name| > 4 && name[|name| - 4..] == [0x2E, 0x6C, 0x75, 0x61]
  {
    var dot := LastIndexOf(name, 0x2E);
    if HasLuaExtension(name) {
      assert |name[dot + 1..]| == 3;
      assert name[|name| - 4..] == [name[dot]] + name[dot + 1..];
    }
    if |name| > 4 && name[|name| - 4..] == [0x2E, 0x6C, 0x75, 0x61] {
      var tail := name[|name| - 4..];
      assert tail[1] == name[|name| - 3] && tail[2] == name[|name| - 2] && tail[3] == name[|name| - 1];
      assert name[|name| - 4] == tail[0] && dot == |name| - 4;
      assert name[dot + 1..] == tail[1..];
    }
  }

  function Find(entries: seq<Entry>, name: Name): Option<Entry> {
    if entries == [] then None
    else if entries[0].name == name then Some(entries[0])
    else Find(entries[1..], name)
  }

  lemma {:induction false} FindIn(entries: seq<Entry>, name: Name)
    ensures Find(entries, name).Some? ==> Find(entries, name).value in entries && Find(entries, name).value.name == name
  {
    if entries != [] && entries[0].name != name {
      FindIn(entries[1..], name);
    }
  }

  lemma {:induction false} FindAt(entries: seq<Entry>, i: nat)
    requires DistinctEntries(entries) && i < |entries|
    ensures Find(entries, entries[i].name) == Some(entries[i])
  {
    if i > 0 {
      FindAt(entries[1..], i - 1);
    }
  }

  function Parent(p: Path): Path
    requires p != []
  {
    p[..|p| - 1]
  }

  /** The canonical directory a path names, if it names a directory. */
  function Resolve(fs: Fs, p: Path): Option<Node> {
    if p == [] then Some(fs.root)
    else
      match Resolve(fs, Parent(p))
      case None => None
      case Some(n) =>
        if n !in fs.dirs then None
        else
          match Find(fs.dirs[n], p[|p| - 1])
          case Some(SubDir(_, target)) => Some(target)
          case _ => None
  }

  /** The canonical directories on the way down to `p`, itself included. */
  function Chain(fs: Fs, p: Path): seq<Node>
    requires Resolve(fs, p).Some?
  {
    if p == [] then [fs.root] else Chain(fs, Parent(p)) + [Resolve(fs, p).value]
  }

  /** A directory path that closes no cycle. */
  ghost predicate Reachable(fs: Fs, p: Path) {
    Resolve(fs, p).Some? && NoRepeats(Chain(fs, p))
  }

  /** A directory the walk has to read and cannot. */
  ghost predicate Unreadable(fs: Fs, p: Path) {
    Reachable(fs, p) && Resolve(fs, p).value !in fs.dirs
  }

  /** A `.lua` file in a reachable directory. */
  ghost predicate IsSource(fs: Fs, p: Path) {
    && p != [] && Reachable(fs, Parent(p)) && Resolve(fs, Parent(p)).value in fs.dirs
    && Other(p[|p| - 1]) in fs.dirs[Resolve(fs, Parent(p)).value] && HasLuaExtension(p[|p| - 1])
  }

  /** A path names a directory step by step: the root, and below a directory that can be
      read each of its subdirectory entries. */
  lemma ResolveMeans(fs: Fs, dir: Path, name: Name, node: Node)
    requires ValidFs(fs)
    ensures Resolve(fs, []) == Some(fs.root)
    ensures Resolve(fs, dir + [name]) == Some(node) <==>
      Resolve(fs, dir).Some? && Resolve(fs, dir).value in fs.dirs && SubDir(name, node) in fs.dirs[Resolve(fs, dir).value]
  {
    var p := dir + [name];
    assert Parent(p) == dir && p[|p| - 1] == name;
    if Resolve(fs, dir).Some? && Resolve(fs, dir).value in fs.dirs {
      var entries := fs.dirs[Resolve(fs, dir).value];
      FindIn(entries, name);
      if SubDir(name, node) in entries {
        var i :| 0 <= i < |entries| && entries[i] == SubDir(name, node);
        FindAt(entries, i);
      }
    }
  }

  lemma {:induction false} ChainMeans(fs: Fs, p: Path, i: nat)
    requires Resolve(fs, p).Some? && i <= |p|
    ensures |Chain(fs, p)| == |p| + 1 && Some(Chain(fs, p)[i]) == Resolve(fs, p[..i])
    decreases |p|
  {
    if i == |p| {
      assert p[..i] == p;
      if p != [] {
        ChainMeans(fs, Parent(p), 0);
      }
    } else {
      ChainMeans(fs, Parent(p), i);
      assert Parent(p)[..i] == p[..i];
    }
  }

  /** A directory is reachable when no directory on the way to it is met twice. */
  lemma ReachableMeans(fs: Fs, p: Path)
    ensures Reachable(fs, p) <==>
      Resolve(fs, p).Some? && forall i, j :: 0 <= i < j <= |p| ==> Resolve(fs, p[..i]) != Resolve(fs, p[..j])
  {
    if Resolve(fs, p).Some? {
      forall i | 0 <= i <= |p| ensures |Chain(fs, p)| == |p| + 1 && Some(Chain(fs, p)[i]) == Resolve(fs, p[..i]) {
        ChainMeans(fs, p, i);
      }
    }
  }

  // ----------------------------------------------------------------- paths

  lemma {:induction false} PrefixResolves(fs: Fs, dir: Path, p: Path)
    requires Resolve(fs, p).Some? && dir <= p
    ensures Resolve(fs, dir).Some? && Chain(fs, dir) <= Chain(fs, p)
    ensures |Chain(fs, p)| == |p| + 1
    decreases |p|
  {
    if p != [] {
      PrefixResolves(fs, if dir == p then Parent(p) else dir, Parent(p));
      if dir != p {
        assert dir <= Parent(p);
      }
    }
  }

  lemma ReachablePrefix(fs: Fs, dir: Path, p: Path)
    requires Reachable(fs, p) && dir <= p
    ensures Reachable(fs, dir)
  {
    PrefixResolves(fs, dir, p);
    var short, long := Chain(fs, dir), Chain(fs, p);
    assert forall i :: 0 <= i < |short| ==> short[i] == long[i];
  }

  /** Below a directory lies one of its own entries. */
  lemma NextStep(fs: Fs, dir: Path, p: Path)
    requires Resolve(fs, p).Some? && dir < p
    ensures Resolve(fs, dir).Some? && Resolve(fs, dir).value in fs.dirs
    ensures Resolve(fs, dir + [p[|dir|]]).Some? && dir + [p[|dir|]] <= p
    ensures SubDir(p[|dir|], Resolve(fs, dir + [p[|dir|]]).value) in fs.dirs[Resolve(fs, dir).value]
  {
    var name := p[|dir|];
    OneLonger(dir, p);
    PrefixResolves(fs, dir + [name], p);
    EntryOfStep(fs, dir, name);
  }

  lemma OneLonger(dir: Path, p: Path)
    requires dir < p
    ensures dir + [p[|dir|]] <= p
  {
    assert p[..|dir| + 1] == dir + [p[|dir|]];
  }

  lemma EntryOfStep(fs: Fs, dir: Path, name: Name)
    requires Resolve(fs, dir + [name]).Some?
    ensures Resolve(fs, dir).Some? && Resolve(fs, dir).value in fs.dirs
    ensures SubDir(name, Resolve(fs, dir + [name]).value) in fs.dirs[Resolve(fs, dir).value]
  {
    var next := dir + [name];
    assert Parent(next) == dir && next[|next| - 1] == name;
    FindIn(fs.dirs[Resolve(fs, dir).value], name);
  }
}
