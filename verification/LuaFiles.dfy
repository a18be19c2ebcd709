/**
 The walk that collects a bundle's sources: an explicit stack, each entry with
 the canonical directories above it, so a link back into its own ancestry is
 recognised by the chain it closes.
 */
module LuaFiles {
  import opened Basics
  import opened Sorting
  import opened SourceTree

  datatype Item = Item(path: Path, ancestors: seq<Node>)

  // ------------------------------------------------ what one directory adds

  function FilesOf(entries: seq<Entry>, dir: Path): seq<Path> {
    if entries == [] then []
    else
      var last := entries[|entries| - 1];
      FilesOf(entries[..|entries| - 1], dir)
      + if last.Other? && HasLuaExtension(last.name) then [dir + [last.name]] else []
  }

  function ItemsOf(entries: seq<Entry>, dir: Path, chain: seq<Node>): seq<Item> {
    if entries == [] then []
    else
      var last := entries[|entries| - 1];
      ItemsOf(entries[..|entries| - 1], dir, chain)
      + if last.SubDir? then [Item(dir + [last.name], chain)] else []
  }

  lemma {:induction false} FilesOfIn(entries: seq<Entry>, dir: Path)
    ensures forall p :: p in FilesOf(entries, dir) ==>
      |p| == |dir| + 1 && p == dir + [p[|dir|]] && Other(p[|dir|]) in entries && HasLuaExtension(p[|dir|])
    ensures |FilesOf(entries, dir)| <= |entries|
  {
    if entries != [] {
      var init, last := entries[..|entries| - 1], entries[|entries| - 1];
      assert entries == init + [last];
      FilesOfIn(init, dir);
    }
  }

  lemma {:induction false} FilesOfNoRepeats(entries: seq<Entry>, dir: Path)
    requires DistinctEntries(entries)
    ensures NoRepeats(FilesOf(entries, dir))
  {
    if entries != [] {
      var init, last := entries[..|entries| - 1], entries[|entries| - 1];
      FilesOfNoRepeats(init, dir);
      FilesOfIn(init, dir);
      assert (dir + [last.name])[|dir|] == last.name;
      assert dir + [last.name] !in FilesOf(init, dir);
    }
  }

  lemma {:induction false} ItemsOfIn(entries: seq<Entry>, dir: Path, chain: seq<Node>)
    ensures forall name, node :: SubDir(name, node) in entries ==> Item(dir + [name], chain) in ItemsOf(entries, dir, chain)
    ensures forall it :: it in ItemsOf(entries, dir, chain) ==> FromEntry(it, entries, dir, chain)
    ensures |ItemsOf(entries, dir, chain)| <= |entries|
  {
    if entries != [] {
      var init, last := entries[..|entries| - 1], entries[|entries| - 1];
      assert entries == init + [last];
      ItemsOfIn(init, dir, chain);
      if last.SubDir? {
        assert (dir + [last.name])[|dir|] == last.name;
        assert SubDir(last.name, last.node) in entries;
      }
      forall it | it in ItemsOf(init, dir, chain) ensures FromEntry(it, entries, dir, chain) {
        var node: Node :| SubDir(it.path[|dir|], node) in init;
        assert SubDir(it.path[|dir|], node) in entries;
      }
    }
  }

  ghost predicate FromEntry(it: Item, entries: seq<Entry>, dir: Path, chain: seq<Node>) {
    && it.ancestors == chain && |it.path| == |dir| + 1 && it.path == dir + [it.path[|dir|]]
    && exists node :: SubDir(it.path[|dir|], node) in entries
  }

  lemma {:induction false} ItemsOfApart(entries: seq<Entry>, dir: Path, chain: seq<Node>)
    requires DistinctEntries(entries)
    ensures Apart(ItemsOf(entries, dir, chain))
  {
    if entries != [] {
      var init, last := entries[..|entries| - 1], entries[|entries| - 1];
      ItemsOfApart(init, dir, chain);
      ItemsOfIn(init, dir, chain);
      forall it | it in ItemsOf(init, dir, chain) ensures it.path != dir + [last.name] && |it.path| == |dir| + 1 {
        var node: Node :| SubDir(it.path[|dir|], node) in init;
        var i :| 0 <= i < |init| && init[i] == SubDir(it.path[|dir|], node);
        assert entries[i].name == it.path[|dir|];
      }
    }
  }

  // ------------------------------------------------------------- invariant

  ghost predicate Comparable(a: Path, b: Path) { a <= b || b <= a }

  /** No entry of the stack lies under another. */
  ghost predicate Apart(stack: seq<Item>) {
    forall i, j :: 0 <= i < j < |stack| ==> !Comparable(stack[i].path, stack[j].path)
  }

  ghost predicate Covered(stack: seq<Item>, dir: Path) {
    exists i :: 0 <= i < |stack| && stack[i].path <= dir
  }

  ghost predicate Placed(fs: Fs, it: Item) {
    && Resolve(fs, it.path).Some? && Chain(fs, it.path) == it.ancestors + [Resolve(fs, it.path).value]
    && NoRepeats(it.ancestors) && forall n :: n in it.ancestors ==> n in fs.dirs
  }

  ghost predicate Found(fs: Fs, out: seq<Path>, stack: seq<Item>) {
    && (forall p :: p in out ==> IsSource(fs, p))
    && (forall p :: IsSource(fs, p) ==> p in out || Covered(stack, Parent(p)))
    && (forall p :: Unreadable(fs, p) ==> Covered(stack, p))
  }

  ghost predicate Disjoint(out: seq<Path>, stack: seq<Item>) {
    && NoRepeats(out) && Apart(stack)
    && forall p, it :: p in out && it in stack ==> !(it.path <= p)
  }

  ghost predicate AllPlaced(fs: Fs, stack: seq<Item>) {
    forall it :: it in stack ==> Placed(fs, it)
  }

  lemma CoveredByRest(stack: seq<Item>, dir: Path)
    requires stack != [] && Covered(stack, dir)
    ensures Covered(stack[..|stack| - 1], dir) || stack[|stack| - 1].path <= dir
  {
    var i :| 0 <= i < |stack| && stack[i].path <= dir;
    if i < |stack| - 1 {
      assert stack[..|stack| - 1][i].path <= dir;
    }
  }

  lemma CoveredByMore(a: seq<Item>, b: seq<Item>, dir: Path)
    ensures Covered(a, dir) || Covered(b, dir) ==> Covered(a + b, dir)
  {
    if Covered(a, dir) {
      var i :| 0 <= i < |a| && a[i].path <= dir;
      assert (a + b)[i].path <= dir;
    } else if Covered(b, dir) {
      var i :| 0 <= i < |b| && b[i].path <= dir;
      assert (a + b)[|a| + i].path <= dir;
    }
  }

  /** An entry that closes a cycle has nothing to find under it. */
  lemma SkipStep(fs: Fs, out: seq<Path>, stack: seq<Item>)
    requires stack != [] && Placed(fs, stack[|stack| - 1]) && Found(fs, out, stack)
    requires Resolve(fs, stack[|stack| - 1].path).value in stack[|stack| - 1].ancestors
    ensures Found(fs, out, stack[..|stack| - 1])
  {
    var top, rest := stack[|stack| - 1], stack[..|stack| - 1];
    assert !Reachable(fs, top.path) by {
      var i :| 0 <= i < |top.ancestors| && top.ancestors[i] == Resolve(fs, top.path).value;
      var chain := Chain(fs, top.path);
      assert chain[i] == chain[|top.ancestors|];
    }
    forall p | IsSource(fs, p) && p !in out ensures Covered(rest, Parent(p)) {
      CoveredByRest(stack, Parent(p));
      if top.path <= Parent(p) {
        ReachablePrefix(fs, top.path, Parent(p));
      }
    }
    forall p | Unreadable(fs, p) ensures Covered(rest, p) {
      CoveredByRest(stack, p);
      if top.path <= p {
        ReachablePrefix(fs, top.path, p);
      }
    }
  }

  /** Reading a directory: its files are found, its subdirectories take its place. */
  lemma ExpandFinds(fs: Fs, out: seq<Path>, stack: seq<Item>)
    requires stack != [] && Placed(fs, stack[|stack| - 1]) && Found(fs, out, stack)
    requires var top := stack[|stack| - 1];
      Resolve(fs, top.path).value in fs.dirs && Resolve(fs, top.path).value !in top.ancestors
    ensures var top := stack[|stack| - 1]; var here := Resolve(fs, top.path).value;
      Found(fs, out + FilesOf(fs.dirs[here], top.path),
            stack[..|stack| - 1] + ItemsOf(fs.dirs[here], top.path, top.ancestors + [here]))
  {
    var top, rest := stack[|stack| - 1], stack[..|stack| - 1];
    var here := Resolve(fs, top.path).value;
    var entries, chain := fs.dirs[here], top.ancestors + [here];
    var files, items := FilesOf(entries, top.path), ItemsOf(entries, top.path, chain);
    TopReachable(fs, top);
    forall p | p in out + files ensures IsSource(fs, p) {
      if p !in out {
        FilesAreSources(fs, top, p);
      }
    }
    forall p | IsSource(fs, p) && p !in out + files ensures Covered(rest + items, Parent(p)) {
      SourceCovered(fs, stack, p);
    }
    forall p | Unreadable(fs, p) ensures Covered(rest + items, p) {
      DirCovered(fs, stack, p);
    }
  }

  lemma SourceCovered(fs: Fs, stack: seq<Item>, p: Path)
    requires stack != [] && Placed(fs, stack[|stack| - 1]) && Resolve(fs, stack[|stack| - 1].path).value in fs.dirs
    requires IsSource(fs, p) && Covered(stack, Parent(p))
    ensures var top := stack[|stack| - 1]; var here := Resolve(fs, top.path).value;
      p in FilesOf(fs.dirs[here], top.path)
      || Covered(stack[..|stack| - 1] + ItemsOf(fs.dirs[here], top.path, top.ancestors + [here]), Parent(p))
  {
    var top := stack[|stack| - 1];
    if top.path == Parent(p) {
      FileFound(fs.dirs[Resolve(fs, top.path).value], p);
    } else {
      DirCovered(fs, stack, Parent(p));
    }
  }

  lemma FileFound(entries: seq<Entry>, p: Path)
    requires p != [] && Other(p[|p| - 1]) in entries && HasLuaExtension(p[|p| - 1])
    ensures p in FilesOf(entries, Parent(p))
  {
    EveryFile(entries, Parent(p), p[|p| - 1]);
    assert p == Parent(p) + [p[|p| - 1]];
  }

  lemma {:induction false} EveryFile(entries: seq<Entry>, dir: Path, name: Name)
    requires Other(name) in entries && HasLuaExtension(name)
    ensures dir + [name] in FilesOf(entries, dir)
  {
    var init, last := entries[..|entries| - 1], entries[|entries| - 1];
    assert entries == init + [last];
    if last != Other(name) {
      EveryFile(init, dir, name);
    }
  }

  lemma DirCovered(fs: Fs, stack: seq<Item>, dir: Path)
    requires stack != [] && Placed(fs, stack[|stack| - 1]) && Resolve(fs, stack[|stack| - 1].path).value in fs.dirs
    requires Resolve(fs, dir).Some? && dir != stack[|stack| - 1].path && Covered(stack, dir)
    ensures var top := stack[|stack| - 1]; var here := Resolve(fs, top.path).value;
      Covered(stack[..|stack| - 1] + ItemsOf(fs.dirs[here], top.path, top.ancestors + [here]), dir)
  {
    var top, rest := stack[|stack| - 1], stack[..|stack| - 1];
    var here := Resolve(fs, top.path).value;
    CoveredByRest(stack, dir);
    if top.path <= dir {
      BelowIsCovered(fs, top, dir);
    }
    CoveredByMore(rest, ItemsOf(fs.dirs[here], top.path, top.ancestors + [here]), dir);
  }

  lemma TopReachable(fs: Fs, top: Item)
    requires Placed(fs, top) && Resolve(fs, top.path).value !in top.ancestors
    ensures Reachable(fs, top.path)
  {
  }

  lemma FilesAreSources(fs: Fs, top: Item, p: Path)
    requires Resolve(fs, top.path).Some? && Resolve(fs, top.path).value in fs.dirs && Reachable(fs, top.path)
    requires p in FilesOf(fs.dirs[Resolve(fs, top.path).value], top.path)
    ensures IsSource(fs, p)
  {
    FilesOfIn(fs.dirs[Resolve(fs, top.path).value], top.path);
    assert Parent(p) == top.path;
  }

  lemma BelowIsCovered(fs: Fs, top: Item, dir: Path)
    requires Placed(fs, top) && Resolve(fs, top.path).value in fs.dirs
    requires Resolve(fs, dir).Some? && top.path < dir
    ensures var here := Resolve(fs, top.path).value;
      Covered(ItemsOf(fs.dirs[here], top.path, top.ancestors + [here]), dir)
  {
    var here := Resolve(fs, top.path).value;
    NextStep(fs, top.path, dir);
    ItemsOfIn(fs.dirs[here], top.path, top.ancestors + [here]);
    var items := ItemsOf(fs.dirs[here], top.path, top.ancestors + [here]);
    var it := Item(top.path + [dir[|top.path|]], top.ancestors + [here]);
    assert it in items;
    var i :| 0 <= i < |items| && items[i] == it;
    assert items[i].path <= dir;
  }

  lemma ExpandPlaces(fs: Fs, stack: seq<Item>)
    requires ValidFs(fs) && stack != [] && AllPlaced(fs, stack) && Placed(fs, stack[|stack| - 1])
    requires var top := stack[|stack| - 1];
      Resolve(fs, top.path).value in fs.dirs && Resolve(fs, top.path).value !in top.ancestors
    ensures var top := stack[|stack| - 1]; var here := Resolve(fs, top.path).value;
      AllPlaced(fs, stack[..|stack| - 1] + ItemsOf(fs.dirs[here], top.path, top.ancestors + [here]))
  {
    var top := stack[|stack| - 1];
    var here := Resolve(fs, top.path).value;
    var entries, chain := fs.dirs[here], top.ancestors + [here];
    ItemsOfIn(entries, top.path, chain);
    assert Placed(fs, top);
    forall it | it in ItemsOf(entries, top.path, chain) ensures Placed(fs, it) {
      var name := it.path[|top.path|];
      var node: Node :| SubDir(name, node) in entries;
      var i :| 0 <= i < |entries| && entries[i] == SubDir(name, node);
      FindAt(entries, i);
      assert Parent(it.path) == top.path;
      assert Resolve(fs, it.path) == Some(node);
    }
  }

  lemma ExpandDisjoint(out: seq<Path>, stack: seq<Item>, entries: seq<Entry>, chain: seq<Node>)
    requires stack != [] && Disjoint(out, stack) && DistinctEntries(entries)
    ensures var top := stack[|stack| - 1];
      Disjoint(out + FilesOf(entries, top.path), stack[..|stack| - 1] + ItemsOf(entries, top.path, chain))
  {
    var top, rest := stack[|stack| - 1], stack[..|stack| - 1];
    var files, items := FilesOf(entries, top.path), ItemsOf(entries, top.path, chain);
    ExpandNoRepeats(out, stack, entries);
    ItemsOfIn(entries, top.path, chain);
    ItemsOfApart(entries, top.path, chain);
    ApartBelow(stack, items);
    forall p: Path, it: Item | p in out + files && it in rest + items ensures !(it.path <= p) {
      if p in out {
        FoundIsElsewhere(out, stack, p, it);
      } else if it in items {
        FileIsNoDir(entries, top.path, chain, p, it);
      } else {
        FileIsNotInRest(stack, entries, p, it);
      }
    }
  }

  lemma ExpandNoRepeats(out: seq<Path>, stack: seq<Item>, entries: seq<Entry>)
    requires stack != [] && Disjoint(out, stack) && DistinctEntries(entries)
    ensures NoRepeats(out + FilesOf(entries, stack[|stack| - 1].path))
  {
    var top := stack[|stack| - 1];
    FilesOfNoRepeats(entries, top.path);
    forall p | p in out ensures p !in FilesOf(entries, top.path) {
      assert !(top.path <= p);
      FilesUnder(entries, top.path, p);
    }
    AppendNoRepeats(out, FilesOf(entries, top.path));
  }

  lemma FilesUnder(entries: seq<Entry>, dir: Path, p: Path)
    ensures p in FilesOf(entries, dir) ==> dir <= p
  {
    FilesOfIn(entries, dir);
  }

  lemma FoundIsElsewhere(out: seq<Path>, stack: seq<Item>, p: Path, it: Item)
    requires stack != [] && Disjoint(out, stack) && p in out
    requires it in stack[..|stack| - 1] || stack[|stack| - 1].path <= it.path
    ensures !(it.path <= p)
  {
    if it in stack[..|stack| - 1] {
      assert it in stack;
    } else {
      assert !(stack[|stack| - 1].path <= p);
    }
  }

  lemma FileIsNotInRest(stack: seq<Item>, entries: seq<Entry>, p: Path, it: Item)
    requires stack != [] && Apart(stack) && it in stack[..|stack| - 1]
    requires p in FilesOf(entries, stack[|stack| - 1].path)
    ensures !(it.path <= p)
  {
    FilesOfIn(entries, stack[|stack| - 1].path);
    var i :| 0 <= i < |stack| - 1 && stack[i] == it;
    assert !Comparable(stack[i].path, stack[|stack| - 1].path);
    NotBelowSibling(it.path, stack[|stack| - 1].path, p);
  }

  lemma FileIsNoDir(entries: seq<Entry>, dir: Path, chain: seq<Node>, p: Path, it: Item)
    requires DistinctEntries(entries) && p in FilesOf(entries, dir) && it in ItemsOf(entries, dir, chain)
    ensures !(it.path <= p)
  {
    FilesOfIn(entries, dir);
    ItemsOfIn(entries, dir, chain);
    var i :| 0 <= i < |entries| && entries[i] == Other(p[|dir|]);
    var node: Node :| SubDir(it.path[|dir|], node) in entries;
    var j :| 0 <= j < |entries| && entries[j] == SubDir(it.path[|dir|], node);
    assert entries[i].name != entries[j].name;
  }

  lemma NotBelowSibling(a: Path, dir: Path, p: Path)
    requires !Comparable(a, dir) && |p| == |dir| + 1 && dir <= p
    ensures !Comparable(a, p)
  {
  }

  lemma ApartBelow(stack: seq<Item>, items: seq<Item>)
    requires stack != [] && Apart(stack) && Apart(items)
    requires forall it :: it in items ==> |it.path| == |stack[|stack| - 1].path| + 1 && stack[|stack| - 1].path <= it.path
    ensures Apart(stack[..|stack| - 1] + items)
  {
    var rest, all := stack[..|stack| - 1], stack[..|stack| - 1] + items;
    forall i, j | 0 <= i < j < |all| ensures !Comparable(all[i].path, all[j].path) {
      if i < |rest| && j >= |rest| {
        assert all[j] in items;
        assert !Comparable(stack[i].path, stack[|stack| - 1].path);
        NotBelowSibling(all[i].path, stack[|stack| - 1].path, all[j].path);
      }
    }
  }
}
