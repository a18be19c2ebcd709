/**
 The bounds enforced during one serialization pass: depth and node budget are
 charged on the way down, the tables on the way are kept on a stack, and every
 value is otherwise forwarded unchanged.
 */
module Bounded {
  import opened Basics
  import opened LuaHeap
  import opened JsonTokens
  import opened Encoding

  datatype JsonError = TooDeep | TooManyNodes | NotUtf8 | RecursiveTable | MixedTable | BadName | Unsupported

  type Written = Result<seq<Token>, JsonError>

  /** The running bounds of one serialization. */
  class Bounds {
    const maxDepth: nat
    const strictUtf8: bool
    var depth: nat
    var budget: nat

    constructor (maxDepth: nat, maxNodes: nat, strictUtf8: bool)
      ensures Left() == Room(0, maxDepth, maxNodes, strictUtf8)
    {
      this.maxDepth, this.strictUtf8 := maxDepth, strictUtf8;
      depth, budget := 0, maxNodes;
    }

    function Left(): Room
      reads this
    {
      Room(depth, maxDepth, budget, strictUtf8)
    }

    method Visit() returns (ok: bool)
      modifies this`budget
      ensures ok <==> old(budget) >= 1
      ensures budget == if ok then old(budget) - 1 else old(budget)
    {
      if budget == 0 {
        return false;
      }
      budget := budget - 1;
      ok := true;
    }

    method Enter() returns (ok: bool)
      modifies this`depth
      ensures ok <==> old(depth) + 1 <= maxDepth
      ensures depth == if ok then old(depth) + 1 else old(depth)
    {
      if depth + 1 > maxDepth {
        return false;
      }
      depth := depth + 1;
      ok := true;
    }

    method Leave()
      modifies this`depth
      ensures depth == if old(depth) == 0 then 0 else old(depth) - 1
    {
      depth := if depth == 0 then 0 else depth - 1;
    }
  }

  /** The tables being serialized, outermost first. */
  class TablePath {
    var tables: Path

    constructor ()
      ensures tables == []
    {
      tables := [];
    }

    method Push(id: Id)
      modifies this
      ensures tables == old(tables) + [id]
    {
      tables := tables + [id];
    }

    method Pop()
      requires tables != []
      modifies this
      ensures tables == old(tables)[..|old(tables)| - 1]
    {
      tables := tables[..|tables| - 1];
    }
  }

  /** What the pass answers when the unbounded encoder answers `plain`: the same
      tokens when they fit in the room there was, and an error otherwise. */
  ghost predicate Answers(r: Written, plain: Option<seq<Token>>, before: Room, after: Room) {
    && (r.Ok? <==> plain.Some? && Fits(plain.value, before))
    && (r.Ok? ==> r.value == plain.value && after == Spend(before, plain.value))
  }

  /** One pass over one heap. */
  class Pass {
    const heap: Heap
    const bounds: Bounds
    const path: TablePath

    constructor (heap: Heap, bounds: Bounds, path: TablePath)
      ensures this.heap == heap && this.bounds == bounds && this.path == path
    {
      this.heap, this.bounds, this.path := heap, bounds, path;
    }

    ghost predicate Ready()
      reads bounds
    {
      Closed(heap) && bounds.depth <= bounds.maxDepth
    }

    /** Serializes a value: exactly what the unbounded encoder writes, exactly when
        that fits, with the stack of tables restored whatever happens and the depth
        restored on success. */
    method Serialize(v: Value) returns (r: Written)
      requires Ready() && Points(heap, v)
      modifies bounds, path
      ensures path.tables == old(path.tables)
      ensures Answers(r, Encode(heap, old(path.tables), v), old(bounds.Left()), bounds.Left())
      decreases Unseen(heap, path.tables), 0, 0
    {
      if v.Table? {
        var id := v.id;
        if id in path.tables {
          return Err(RecursiveTable);
        }
        UnseenShrinks(heap, path.tables, id);
        path.Push(id);
        r := SerializeTable(heap[id]);
        path.Pop();
      } else {
        r := SerializeLeaf(v);
      }
    }

    method SerializeLeaf(v: Value) returns (r: Written)
      requires Ready() && !v.Table? && Points(heap, v)
      modifies bounds`budget
      ensures Answers(r, Encode(heap, path.tables, v), old(bounds.Left()), bounds.Left())
    {
      if v.Opaque? {
        return Err(Unsupported);
      }
      var visited := bounds.Visit();
      if !visited {
        return Err(TooManyNodes);
      }
      if v.Blob? && bounds.strictUtf8 {
        assert [Octets(v.s)][0].Octets?;
        return Err(NotUtf8);
      }
      var token := if v.Blob? then Octets(v.s) else Atom(v);
      OneToken(token);
      r := Ok([token]);
    }

    /** Opens a sequence or a map: charged as one value, and refused past the depth
        bound before anything in it is visited. */
    method Open() returns (r: Result<(), JsonError>)
      requires Ready()
      modifies bounds
      ensures Ready()
      ensures r.Ok? <==> old(bounds.budget) >= 1 && old(bounds.depth) + 1 <= bounds.maxDepth
      ensures r.Ok? ==>
        bounds.Left() == old(bounds.Left()).(depth := old(bounds.depth) + 1, budget := old(bounds.budget) - 1)
    {
      var visited := bounds.Visit();
      if !visited {
        return Err(TooManyNodes);
      }
      var entered := bounds.Enter();
      r := if entered then Ok(()) else Err(TooDeep);
    }

    method SerializeTable(t: LuaTable) returns (r: Written)
      requires Ready() && WellFormed(t) && AllPairsPoint(heap, t.pairs)
      modifies bounds, path
      ensures path.tables == old(path.tables)
      ensures Answers(r, EncodeTable(heap, old(path.tables), t), old(bounds.Left()), bounds.Left())
      decreases Unseen(heap, path.tables), 3, 0
    {
      if t.border == 0 && t.pairs == [] {
        r := SerializeEmpty(t);
      } else if t.border == 0 {
        r := SerializeMap(t.pairs);
      } else {
        r := SerializeList(t);
      }
    }

    method SerializeEmpty(t: LuaTable) returns (r: Written)
      requires Ready() && WellFormed(t) && t.border == 0 && t.pairs == []
      modifies bounds
      ensures Answers(r, EncodeTable(heap, path.tables, t), old(bounds.Left()), bounds.Left())
    {
      ghost var before := bounds.Left();
      var open, close := if t.arrayMarked then OpenSeq else OpenMap, if t.arrayMarked then CloseSeq else CloseMap;
      EnclosedFits(open, [], close, before);
      EnclosedMeasures(open, [], close);
      var entered := Open();
      if entered.Err? {
        return Err(entered.error);
      }
      bounds.Leave();
      r := Ok([open] + [] + [close]);
    }

    /** Decides between a list with holes, a map, and a refusal by walking the keys. */
    method SerializeList(t: LuaTable) returns (r: Written)
      requires Ready() && WellFormed(t) && t.border > 0 && AllPairsPoint(heap, t.pairs)
      modifies bounds, path
      ensures path.tables == old(path.tables)
      ensures Answers(r, EncodeTable(heap, old(path.tables), t), old(bounds.Left()), bounds.Left())
      decreases Unseen(heap, path.tables), 2, 0
    {
      var count, highest, mixed := WalkKeys(t.pairs);
      if mixed {
        return Err(MixedTable);
      }
      if highest > 2 * count {
        r := SerializeMap(t.pairs);
        return;
      }
      var items := if count == highest then Sequence(t.pairs, 0, highest)
                   else seq(highest, i requires 0 <= i => Get(t.pairs, Int(i + 1)));
      assert items == Items(t.pairs);
      ItemsPoint(heap, t);
      r := SerializeSeq(items);
    }

    method SerializeSeq(items: seq<Value>) returns (r: Written)
      requires Ready() && AllPoint(heap, items)
      modifies bounds, path
      ensures path.tables == old(path.tables)
      ensures Answers(r, EncodeSeq(heap, old(path.tables), items), old(bounds.Left()), bounds.Left())
      decreases Unseen(heap, path.tables), 1, 1
    {
      ghost var before := bounds.Left();
      ItemsBalanced(heap, path.tables, items);
      ghost var plain := EncodeItems(heap, path.tables, items);
      if plain.Some? {
        EnclosedFits(OpenSeq, plain.value, CloseSeq, before);
        EnclosedMeasures(OpenSeq, plain.value, CloseSeq);
      }
      var entered := Open();
      if entered.Err? {
        return Err(entered.error);
      }
      var body := SerializeItems(items);
      if body.Err? {
        return body;
      }
      bounds.Leave();
      r := Ok([OpenSeq] + body.value + [CloseSeq]);
    }

    method WalkKeys(pairs: seq<Pair>) returns (count: nat, highest: nat, mixed: bool)
      ensures mixed <==> !OnlyIndexes(pairs)
      ensures !mixed ==> count == |pairs| && highest == Highest(pairs)
    {
      count, highest, mixed := 0, 0, false;
      while count < |pairs|
        invariant count <= |pairs| && OnlyIndexes(pairs[..count]) && highest == Highest(pairs[..count])
      {
        assert pairs[..count + 1][..count] == pairs[..count];
        var key := pairs[count].0;
        if !IsIndex(key) {
          return count, highest, true;
        }
        highest := if key.n > highest then key.n else highest;
        count := count + 1;
      }
      assert pairs[..count] == pairs;
    }

    method SerializeItems(items: seq<Value>) returns (r: Written)
      requires Ready() && AllPoint(heap, items)
      modifies bounds, path
      ensures path.tables == old(path.tables)
      ensures Answers(r, EncodeItems(heap, old(path.tables), items), old(bounds.Left()), bounds.Left())
      decreases Unseen(heap, path.tables), 1, 0
    {
      ghost var before, tables := bounds.Left(), path.tables;
      ghost var plain := EncodeItems(heap, tables, items);
      var out: seq<Token> := [];
      assert Prepend([], plain) == plain by { if plain.Some? { assert [] + plain.value == plain.value; } }
      for i := 0 to |items|
        invariant path.tables == tables && Ready()
        invariant Net(out) == 0 && Fits(out, before) && bounds.Left() == Spend(before, out)
        invariant plain == Prepend(out, EncodeItems(heap, tables, items[i..]))
      {
        EncodeBalanced(heap, tables, items[i]);
        StepFits(out, Encode(heap, tables, items[i]), EncodeItems(heap, tables, items[i..][1..]), before);
        assert items[i..][1..] == items[i + 1..];
        var item := Serialize(items[i]);
        if item.Err? {
          return item;
        }
        out := out + item.value;
      }
      assert out + [] == out;
      r := Ok(out);
    }

    method SerializeMap(pairs: seq<Pair>) returns (r: Written)
      requires Ready() && AllPairsPoint(heap, pairs)
      modifies bounds, path
      ensures path.tables == old(path.tables)
      ensures Answers(r, EncodeMap(heap, old(path.tables), pairs), old(bounds.Left()), bounds.Left())
      decreases Unseen(heap, path.tables), 1, 1
    {
      ghost var before := bounds.Left();
      PairsBalanced(heap, path.tables, pairs);
      ghost var plain := EncodePairs(heap, path.tables, pairs);
      if plain.Some? {
        EnclosedFits(OpenMap, plain.value, CloseMap, before);
        EnclosedMeasures(OpenMap, plain.value, CloseMap);
      }
      var entered := Open();
      if entered.Err? {
        return Err(entered.error);
      }
      var body := SerializePairs(pairs);
      if body.Err? {
        return body;
      }
      bounds.Leave();
      r := Ok([OpenMap] + body.value + [CloseMap]);
    }

    method SerializePairs(pairs: seq<Pair>) returns (r: Written)
      requires Ready() && AllPairsPoint(heap, pairs)
      modifies bounds, path
      ensures path.tables == old(path.tables)
      ensures Answers(r, EncodePairs(heap, old(path.tables), pairs), old(bounds.Left()), bounds.Left())
      decreases Unseen(heap, path.tables), 1, 0
    {
      ghost var before, tables := bounds.Left(), path.tables;
      ghost var plain := EncodePairs(heap, tables, pairs);
      var out: seq<Token> := [];
      assert Prepend([], plain) == plain by { if plain.Some? { assert [] + plain.value == plain.value; } }
      for i := 0 to |pairs|
        invariant path.tables == tables && Ready()
        invariant Net(out) == 0 && Fits(out, before) && bounds.Left() == Spend(before, out)
        invariant plain == Prepend(out, EncodePairs(heap, tables, pairs[i..]))
      {
        var (key, value) := pairs[i];
        assert pairs[i..][1..] == pairs[i + 1..];
        EncodeBalanced(heap, tables, value);
        PairFits(out, key, Encode(heap, tables, value), EncodePairs(heap, tables, pairs[i + 1..]), before);
        var name := SerializeName(key);
        if name.Err? {
          return name;
        }
        var item := Serialize(value);
        if item.Err? {
          return item;
        }
        out := out + (name.value + item.value);
      }
      assert out + [] == out;
      r := Ok(out);
    }

    /** A member's name is visited like any other value; a table used as one is
        refused whatever it holds. */
    method SerializeName(key: Value) returns (r: Written)
      requires Ready()
      modifies bounds`budget
      ensures Ready()
      ensures r.Ok? <==> CanName(key) && old(bounds.budget) >= 1
      ensures r.Ok? ==> r.value == [Name(key)] && bounds.Left() == Spend(old(bounds.Left()), [Name(key)])
    {
      if key.Opaque? || key.Table? {
        return Err(BadName);
      }
      var visited := bounds.Visit();
      if !visited {
        return Err(TooManyNodes);
      }
      if key.Blob? && bounds.strictUtf8 {
        return Err(NotUtf8);
      }
      OneToken(Name(key));
      r := if CanName(key) then Ok([Name(key)]) else Err(BadName);
    }
  }

  const MAX_JSON_DEPTH: nat := 128
  const MAX_JSON_NODES: nat := 1_000_000

  /** `json:encode`, the cache's values and the JSON response: one strict pass from
      fresh bounds. It succeeds exactly when the unbounded encoder does and its
      output is within the three bounds; the output is then the same. */
  method ToJson(heap: Heap, v: Value) returns (r: Written)
    requires Closed(heap) && Points(heap, v)
    ensures r.Ok? <==>
      var plain := Encode(heap, [], v);
      plain.Some? && Peak(plain.value) <= 128 && Visits(plain.value) <= 1_000_000 && !HasOctets(plain.value)
    ensures r.Ok? ==> r.value == Encode(heap, [], v).value
  {
    var bounds := new Bounds(MAX_JSON_DEPTH, MAX_JSON_NODES, true);
    var path := new TablePath();
    var pass := new Pass(heap, bounds, path);
    r := pass.Serialize(v);
  }

  predicate WithinBounds(ts: seq<Token>) {
    Peak(ts) <= MAX_JSON_DEPTH && Visits(ts) <= MAX_JSON_NODES && !HasOctets(ts)
  }

  /** One more item after `out`: it can be written exactly when it fits in what is
      left, and if it cannot, neither can the whole. */
  lemma StepFits(out: seq<Token>, item: Option<seq<Token>>, rest: Option<seq<Token>>, before: Room)
    requires Net(out) == 0 && Fits(out, before)
    requires item.Some? ==> Net(item.value) == 0
    ensures item.Some? && Fits(item.value, Spend(before, out)) ==>
      Net(out + item.value) == 0 && Fits(out + item.value, before)
        && Spend(before, out + item.value) == Spend(Spend(before, out), item.value)
    ensures item.Some? ==> Prepend(out, Prepend(item.value, rest)) == Prepend(out + item.value, rest)
    ensures item.Some? && rest.Some? && !Fits(item.value, Spend(before, out)) ==>
      !Fits(out + (item.value + rest.value), before)
  {
    if item.Some? {
      FitsAppend(out, item.value, before);
      MeasuresAppend(out, item.value);
      if rest.Some? {
        assert out + (item.value + rest.value) == (out + item.value) + rest.value;
        FitsAppend(out + item.value, rest.value, before);
      }
    }
  }

  lemma PairFits(out: seq<Token>, key: Value, item: Option<seq<Token>>, rest: Option<seq<Token>>, before: Room)
    requires Net(out) == 0 && Fits(out, before)
    requires item.Some? ==> Net(item.value) == 0
    ensures item.Some? ==> var both := [Name(key)] + item.value;
      && (Fits(both, Spend(before, out)) <==>
           before.budget - Visits(out) >= 1 && Fits(item.value, Spend(Spend(before, out), [Name(key)])))
      && (Fits(both, Spend(before, out)) ==>
           Net(out + both) == 0 && Fits(out + both, before)
           && Spend(before, out + both) == Spend(Spend(Spend(before, out), [Name(key)]), item.value))
      && Prepend(out, Prepend(both, rest)) == Prepend(out + both, rest)
      && (rest.Some? && !Fits(both, Spend(before, out)) ==> !Fits(out + (both + rest.value), before))
    ensures Net([Name(key)]) == 0 && Visits([Name(key)]) == 1
  {
    OneToken(Name(key));
    if item.Some? {
      var both := [Name(key)] + item.value;
      MeasuresAppend([Name(key)], item.value);
      StepFits(out, Some(both), rest, before);
      if before.budget - Visits(out) >= 1 {
        FitsAppend([Name(key)], item.value, Spend(before, out));
      }
    }
  }
}
