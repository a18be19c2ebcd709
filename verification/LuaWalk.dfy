/** The walk itself: it ends on every graph, and finds exactly the sources. */
module LuaWalk {
  import opened Basics
  import opened Sorting
  import opened SourceTree
  import opened LuaFiles

  datatype WalkError = CannotRead(dir: Path)

  // ----------------------------------------------------------- termination

  ghost function Widest(dirs: map<Node, seq<Entry>>): (w: nat)
    ensures forall n :: n in dirs ==> |dirs[n]| <= w
  {
    if dirs == map[] then 0
    else
      var n :| n in dirs;
      var rest := Widest(dirs - {n});
      assert forall m :: m in dirs && m != n ==> m in dirs - {n};
      if |dirs[n]| > rest then |dirs[n]| else rest
  }

  /** Steps left under an entry that can still go `height` directories down. */
  ghost function Weight(height: nat, width: nat): nat {
    1 + if height == 0 then 0 else width * Weight(height - 1, width)
  }

  ghost function Height(fs: Fs, it: Item): nat {
    if |fs.dirs| < |it.ancestors| then 0 else |fs.dirs| - |it.ancestors|
  }

  ghost function Fuel(fs: Fs, stack: seq<Item>): nat {
    if stack == [] then 0
    else Fuel(fs, stack[..|stack| - 1]) + Weight(Height(fs, stack[|stack| - 1]), Widest(fs.dirs))
  }

  lemma {:induction false} FuelAppend(fs: Fs, a: seq<Item>, b: seq<Item>)
    ensures Fuel(fs, a + b) == Fuel(fs, a) + Fuel(fs, b)
    decreases |b|
  {
    if b == [] {
      assert a + b == a;
    } else {
      assert (a + b)[..|a + b| - 1] == a + b[..|b| - 1];
      FuelAppend(fs, a, b[..|b| - 1]);
    }
  }

  lemma {:induction false} FuelOfItems(fs: Fs, items: seq<Item>, height: nat)
    requires forall it :: it in items ==> Height(fs, it) == height
    ensures Fuel(fs, items) == |items| * Weight(height, Widest(fs.dirs))
  {
    if items != [] {
      FuelOfItems(fs, items[..|items| - 1], height);
    }
  }

  lemma {:induction false} ChainIsShort(chain: seq<Node>, dirs: set<Node>)
    requires NoRepeats(chain) && forall n :: n in chain ==> n in dirs
    ensures |chain| <= |dirs|
  {
    if chain != [] {
      var init, last := chain[..|chain| - 1], chain[|chain| - 1];
      ChainIsShort(init, dirs - {last});
    }
  }

  /** Opening a directory trades one entry for lighter ones: a chain of different
      directories cannot outgrow the number of directories. */
  lemma FuelDrops(fs: Fs, stack: seq<Item>, here: Node)
    requires stack != [] && here in fs.dirs && here !in stack[|stack| - 1].ancestors
    requires NoRepeats(stack[|stack| - 1].ancestors) && forall n :: n in stack[|stack| - 1].ancestors ==> n in fs.dirs
    ensures var top := stack[|stack| - 1];
      Fuel(fs, stack[..|stack| - 1] + ItemsOf(fs.dirs[here], top.path, top.ancestors + [here])) < Fuel(fs, stack)
  {
    var top, width := stack[|stack| - 1], Widest(fs.dirs);
    var chain := top.ancestors + [here];
    var items := ItemsOf(fs.dirs[here], top.path, chain);
    ChainIsShort(chain, fs.dirs.Keys);
    assert |fs.dirs.Keys| == |fs.dirs|;
    var height := Height(fs, top) - 1;
    ItemsOfHeight(fs, here, top.path, chain, height);
    FuelSwap(fs, stack, items, height, width);
  }

  lemma ItemsOfHeight(fs: Fs, here: Node, dir: Path, chain: seq<Node>, height: nat)
    requires here in fs.dirs && |fs.dirs| == height + |chain|
    ensures |ItemsOf(fs.dirs[here], dir, chain)| <= Widest(fs.dirs)
    ensures forall it :: it in ItemsOf(fs.dirs[here], dir, chain) ==> Height(fs, it) == height
  {
    ItemsOfIn(fs.dirs[here], dir, chain);
  }

  lemma FuelSwap(fs: Fs, stack: seq<Item>, items: seq<Item>, height: nat, width: nat)
    requires stack != [] && width == Widest(fs.dirs) && |items| <= width
    requires Height(fs, stack[|stack| - 1]) == height + 1
    requires forall it :: it in items ==> Height(fs, it) == height
    ensures Fuel(fs, stack[..|stack| - 1] + items) < Fuel(fs, stack)
  {
    FuelOfItems(fs, items, height);
    FuelAppend(fs, stack[..|stack| - 1], items);
    WeightDrops(|items|, height, width);
  }

  /** At most `width` entries one level down weigh less than one entry. */
  lemma WeightDrops(n: nat, height: nat, width: nat)
    requires n <= width
    ensures n * Weight(height, width) < Weight(height + 1, width)
  {
    TimesMonotone(n, width, Weight(height, width));
  }

  lemma TimesMonotone(a: nat, b: nat, w: nat)
    requires a <= b
    ensures a * w <= b * w
  {
  }

  // ------------------------------------------------------------------ walk

  /** What the loop keeps. */
  ghost predicate Walking(fs: Fs, out: seq<Path>, stack: seq<Item>) {
    Found(fs, out, stack) && Disjoint(out, stack) && AllPlaced(fs, stack)
  }

  lemma StartFinds(fs: Fs)
    ensures Walking(fs, [], [Item([], [])])
  {
    var stack := [Item([], [])];
    forall p ensures Covered(stack, p) {
      assert stack[0].path <= p;
    }
    assert Placed(fs, stack[0]);
  }

  lemma TopIsPlaced(fs: Fs, out: seq<Path>, stack: seq<Item>)
    requires stack != [] && Walking(fs, out, stack)
    ensures Placed(fs, stack[|stack| - 1])
  {
    assert stack[|stack| - 1] in stack;
  }

  lemma SkipKeeps(fs: Fs, out: seq<Path>, stack: seq<Item>)
    requires stack != [] && Walking(fs, out, stack) && Placed(fs, stack[|stack| - 1])
    requires Resolve(fs, stack[|stack| - 1].path).value in stack[|stack| - 1].ancestors
    ensures Walking(fs, out, stack[..|stack| - 1]) && Fuel(fs, stack[..|stack| - 1]) < Fuel(fs, stack)
  {
    SkipStep(fs, out, stack);
    FewerDisjoint(out, stack);
    FewerPlaced(fs, stack);
  }

  lemma FewerPlaced(fs: Fs, stack: seq<Item>)
    requires stack != [] && AllPlaced(fs, stack)
    ensures AllPlaced(fs, stack[..|stack| - 1]) && Fuel(fs, stack[..|stack| - 1]) < Fuel(fs, stack)
  {
  }

  lemma FewerDisjoint(out: seq<Path>, stack: seq<Item>)
    requires stack != [] && Disjoint(out, stack)
    ensures Disjoint(out, stack[..|stack| - 1])
  {
  }

  lemma ExpandKeeps(fs: Fs, out: seq<Path>, stack: seq<Item>)
    requires ValidFs(fs) && stack != [] && Walking(fs, out, stack) && Placed(fs, stack[|stack| - 1])
    requires var top := stack[|stack| - 1];
      Resolve(fs, top.path).value in fs.dirs && Resolve(fs, top.path).value !in top.ancestors
    ensures var top := stack[|stack| - 1]; var here := Resolve(fs, top.path).value;
      var stack' := stack[..|stack| - 1] + ItemsOf(fs.dirs[here], top.path, top.ancestors + [here]);
      Walking(fs, out + FilesOf(fs.dirs[here], top.path), stack') && Fuel(fs, stack') < Fuel(fs, stack)
  {
    var top := stack[|stack| - 1];
    var here := Resolve(fs, top.path).value;
    ExpandFinds(fs, out, stack);
    ExpandPlaces(fs, stack);
    ExpandDisjoint(out, stack, fs.dirs[here], top.ancestors + [here]);
    FuelDrops(fs, stack, here);
  }

  /** With nothing left on the stack, everything has been found. */
  lemma EmptyStackIsDone(fs: Fs, out: seq<Path>)
    requires Walking(fs, out, [])
    ensures NoRepeats(out) && forall p :: p in out <==> IsSource(fs, p)
    ensures forall p :: !Unreadable(fs, p)
  {
    assert forall d :: !Covered([], d);
  }

  /** All `.lua` files under the root, in stable order: each is listed once, and the
      listing is exactly the files of reachable directories whose name is longer
      than `.lua` and ends in it. It fails exactly when some directory it has to read
      cannot be read. */
  method Walk(fs: Fs) returns (r: Result<seq<Path>, WalkError>)
    requires ValidFs(fs)
    ensures r.Err? <==> exists p :: Unreadable(fs, p)
    ensures r.Err? ==> Unreadable(fs, r.error.dir)
    ensures r.Ok? ==> SortedBy(r.value, ListsLeq) && NoRepeats(r.value)
    ensures r.Ok? ==> forall p :: p in r.value <==> IsSource(fs, p)
    ensures r.Ok? ==> [] !in r.value && forall dir, name :: dir + [name] in r.value <==>
      && Reachable(fs, dir) && Resolve(fs, dir).value in fs.dirs && Other(name) in fs.dirs[Resolve(fs, dir).value]
      && |name| > 4 && name[|name| - 4..] == [0x2E, 0x6C, 0x75, 0x61]
  {
    var out: seq<Path> := [];
    var stack := [Item([], [])];
    StartFinds(fs);
    while stack != []
      invariant Walking(fs, out, stack)
      decreases Fuel(fs, stack)
    {
      var top, rest := stack[|stack| - 1], stack[..|stack| - 1];
      TopIsPlaced(fs, out, stack);
      var here := Resolve(fs, top.path).value;
      if here in top.ancestors {
        SkipKeeps(fs, out, stack);
        stack := rest;
        continue;
      }
      if here !in fs.dirs {
        TopReachable(fs, top);
        assert Unreadable(fs, top.path);
        return Err(CannotRead(top.path));
      }
      ExpandKeeps(fs, out, stack);
      out, stack := ReadDir(fs.dirs[here], top.path, top.ancestors + [here], out, rest);
    }
    EmptyStackIsDone(fs, out);
    SortKeepsOut(out);
    SourcesAreLuaFiles(fs, Sort(out, ListsLeq));
    r := Ok(Sort(out, ListsLeq));
  }

  /** What it means to be a source, on names: a file of a reachable directory,
      longer than `.lua` and ending in it. */
  lemma SourcesAreLuaFiles(fs: Fs, out: seq<Path>)
    requires forall p :: p in out <==> IsSource(fs, p)
    ensures [] !in out && forall dir, name :: dir + [name] in out <==>
      && Reachable(fs, dir) && Resolve(fs, dir).value in fs.dirs && Other(name) in fs.dirs[Resolve(fs, dir).value]
      && |name| > 4 && name[|name| - 4..] == [0x2E, 0x6C, 0x75, 0x61]
  {
    forall dir, name ensures dir + [name] in out <==>
      && Reachable(fs, dir) && Resolve(fs, dir).value in fs.dirs && Other(name) in fs.dirs[Resolve(fs, dir).value]
      && |name| > 4 && name[|name| - 4..] == [0x2E, 0x6C, 0x75, 0x61]
    {
      var p := dir + [name];
      assert Parent(p) == dir && p[|p| - 1] == name;
      LuaExtensionIff(name);
    }
  }

  lemma SortKeepsOut(out: seq<Path>)
    requires NoRepeats(out)
    ensures var sorted := Sort(out, ListsLeq);
      SortedBy(sorted, ListsLeq) && NoRepeats(sorted) && forall p :: p in sorted <==> p in out
  {
    OrdersAreTotal();
    SortSorts(out, ListsLeq);
    SortKeepsNoRepeats(out, ListsLeq);
    SameElements(out, Sort(out, ListsLeq));
  }

  /** One directory's entries, in listing order: subdirectories are pushed, sources kept. */
  lemma OneEntry(entries: seq<Entry>, i: nat, dir: Path, chain: seq<Node>)
    requires i < |entries|
    ensures var e := entries[i];
      FilesOf(entries[..i + 1], dir) ==
        FilesOf(entries[..i], dir) + if !e.SubDir? && HasLuaExtension(e.name) then [dir + [e.name]] else []
    ensures var e := entries[i];
      ItemsOf(entries[..i + 1], dir, chain) ==
        ItemsOf(entries[..i], dir, chain) + if e.SubDir? then [Item(dir + [e.name], chain)] else []
  {
    assert entries[..i + 1][..i] == entries[..i];
  }

  method ReadDir(entries: seq<Entry>, dir: Path, chain: seq<Node>, out: seq<Path>, stack: seq<Item>)
    returns (out': seq<Path>, stack': seq<Item>)
    ensures out' == out + FilesOf(entries, dir)
    ensures stack' == stack + ItemsOf(entries, dir, chain)
  {
    out', stack' := out, stack;
    for i := 0 to |entries|
      invariant out' == out + FilesOf(entries[..i], dir)
      invariant stack' == stack + ItemsOf(entries[..i], dir, chain)
    {
      OneEntry(entries, i, dir, chain);
      var path := dir + [entries[i].name];
      if entries[i].SubDir? {
        stack' := stack' + [Item(path, chain)];
      } else if HasLuaExtension(entries[i].name) {
        out' := out' + [path];
      }
    }
    assert entries[..|entries|] == entries;
  }

  // ---------------------------------------------------------- stable order

  ghost predicate SameTree(a: Fs, b: Fs) {
    && a.root == b.root && a.dirs.Keys == b.dirs.Keys
    && forall n, e :: n in a.dirs ==> (e in a.dirs[n] <==> e in b.dirs[n])
  }

  lemma {:induction false} FindAgrees(a: seq<Entry>, b: seq<Entry>, name: Name)
    requires DistinctEntries(a) && DistinctEntries(b) && forall e :: e in a <==> e in b
    ensures Find(a, name) == Find(b, name)
  {
    if Find(a, name).Some? {
      FindIn(a, name);
      var i :| 0 <= i < |b| && b[i] == Find(a, name).value;
      FindAt(b, i);
    } else if Find(b, name).Some? {
      FindIn(b, name);
      var i :| 0 <= i < |a| && a[i] == Find(b, name).value;
      FindAt(a, i);
    }
  }

  lemma {:induction false} ResolveAgrees(a: Fs, b: Fs, p: Path)
    requires ValidFs(a) && ValidFs(b) && SameTree(a, b)
    ensures Resolve(a, p) == Resolve(b, p)
    ensures Resolve(a, p).Some? ==> Chain(a, p) == Chain(b, p)
  {
    if p != [] {
      ResolveAgrees(a, b, Parent(p));
      var n := Resolve(a, Parent(p));
      if n.Some? && n.value in a.dirs {
        FindAgrees(a.dirs[n.value], b.dirs[n.value], p[|p| - 1]);
      }
    }
  }

  lemma SourcesAgree(a: Fs, b: Fs, p: Path)
    requires ValidFs(a) && ValidFs(b) && SameTree(a, b)
    ensures IsSource(a, p) <==> IsSource(b, p)
  {
    if p != [] {
      ResolveAgrees(a, b, Parent(p));
    }
  }

  /** The order in which the system lists directories does not show in the result. */
  lemma ListingOrderIsInvisible(a: Fs, b: Fs, x: seq<Path>, y: seq<Path>)
    requires ValidFs(a) && ValidFs(b) && SameTree(a, b)
    requires SortedBy(x, ListsLeq) && NoRepeats(x) && forall p :: p in x <==> IsSource(a, p)
    requires SortedBy(y, ListsLeq) && NoRepeats(y) && forall p :: p in y <==> IsSource(b, p)
    ensures x == y
  {
    OrdersAreTotal();
    forall p ensures p in x <==> p in y {
      SourcesAgree(a, b, p);
    }
    SortedUnique(x, y, ListsLeq);
  }
}
