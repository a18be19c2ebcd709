/**
 Where the walking guard and the bounded pass agree, over every value, encodable
 or not. The guard sees a value unfolded into a tree, keys included; the pass sees
 what can be written of it.
 */
module GuardAgreement {
  import opened Basics
  import opened LuaHeap
  import opened JsonTokens
  import opened Encoding
  import opened Bounded
  import opened WalkingGuard

  /** The size of a finite unfolding, its nesting, and whether it has a string outside UTF-8. */
  datatype Extent = Extent(nodes: nat, depth: nat, blobs: bool)

  function Beside(a: Extent, b: Extent): Extent {
    Extent(a.nodes + b.nodes, if a.depth > b.depth then a.depth else b.depth, a.blobs || b.blobs)
  }

  function Both(a: Option<Extent>, b: Option<Extent>): Option<Extent> {
    if a.Some? && b.Some? then Some(Beside(a.value, b.value)) else None
  }

  /** The unfolding of a value, if it nests at most `levels` deep; a cycle never does. */
  ghost function Unfold(heap: Heap, v: Value, levels: nat): Option<Extent>
    requires Closed(heap) && Points(heap, v)
    decreases levels, 0
  {
    if !v.Table? then Some(Extent(1, 0, v.Blob?))
    else if levels == 0 then None
    else
      match UnfoldPairs(heap, heap[v.id].pairs, levels - 1)
      case None => None
      case Some(e) => Some(Extent(1 + e.nodes, 1 + e.depth, e.blobs))
  }

  ghost function UnfoldPairs(heap: Heap, pairs: seq<Pair>, levels: nat): Option<Extent>
    requires Closed(heap) && PairsPoint(heap, pairs)
    decreases levels, |pairs| + 1
  {
    if pairs == [] then Some(Extent(0, 0, false))
    else
      Both(Both(Unfold(heap, pairs[0].0, levels), Unfold(heap, pairs[0].1, levels)), UnfoldPairs(heap, pairs[1..], levels))
  }

  // ------------------------------------------------------- what the guard does

  function Charged(e: Option<Extent>, budget: nat, strict: bool): Option<nat> {
    if e.Some? && e.value.nodes <= budget && !(strict && e.value.blobs) then Some(budget - e.value.nodes) else None
  }

  function ChargedOn(e: Option<Extent>, left: Option<nat>, strict: bool): Option<nat> {
    if left.None? then None else Charged(e, left.value, strict)
  }

  lemma ChargedInTurn(a: Option<Extent>, b: Option<Extent>, budget: nat, strict: bool)
    ensures Charged(Both(a, b), budget, strict) == ChargedOn(b, Charged(a, budget, strict), strict)
  {
  }

  /** For every value, cyclic or not, encodable or not: the walk with a running budget
      accepts exactly a finite unfolding of the right size. */
  lemma {:induction false} WalkIsUnfolding(heap: Heap, v: Value, levels: nat, budget: nat, strict: bool)
    requires Closed(heap) && Points(heap, v)
    ensures Walk(heap, v, levels, budget, strict) == Charged(Unfold(heap, v, levels), budget, strict)
    decreases levels, 0
  {
    if v.Table? && levels > 0 && budget > 0 {
      PairsWalkIsUnfolding(heap, heap[v.id].pairs, levels - 1, budget - 1, strict);
    }
  }

  lemma {:induction false} PairsWalkIsUnfolding(heap: Heap, pairs: seq<Pair>, levels: nat, budget: nat, strict: bool)
    requires Closed(heap) && PairsPoint(heap, pairs)
    ensures WalkPairs(heap, pairs, levels, budget, strict) == Charged(UnfoldPairs(heap, pairs, levels), budget, strict)
    decreases levels, |pairs| + 1
  {
    if pairs != [] {
      var key, item, rest := Unfold(heap, pairs[0].0, levels), Unfold(heap, pairs[0].1, levels),
                             UnfoldPairs(heap, pairs[1..], levels);
      ChargedInTurn(Both(key, item), rest, budget, strict);
      ChargedInTurn(key, item, budget, strict);
      WalkIsUnfolding(heap, pairs[0].0, levels, budget, strict);
      var left := Charged(key, budget, strict);
      if left.Some? {
        WalkIsUnfolding(heap, pairs[0].1, levels, left.value, strict);
        var left' := Charged(item, left.value, strict);
        if left'.Some? {
          PairsWalkIsUnfolding(heap, pairs[1..], levels, left'.value, strict);
        }
      }
    }
  }

  // ------------------------------------------------------ what can be written

  /** A table with a list part has indexes only, and every key can name a member. */
  predicate Shaped(t: LuaTable) {
    (t.border > 0 ==> OnlyIndexes(t.pairs)) && forall i :: 0 <= i < |t.pairs| ==> CanName(t.pairs[i].0)
  }

  /** Nothing in the unfolding is beyond JSON: no function, no mixed table, no unusable key. */
  ghost predicate Writable(heap: Heap, v: Value, levels: nat)
    requires Closed(heap) && Points(heap, v)
    decreases levels, 0
  {
    match v
    case Opaque => false
    case Table(id) => levels > 0 && Shaped(heap[id]) && WritableItems(heap, heap[id].pairs, levels - 1)
    case _ => true
  }

  ghost predicate WritableItems(heap: Heap, pairs: seq<Pair>, levels: nat)
    requires Closed(heap) && AllPairsPoint(heap, pairs)
    decreases levels, 1
  {
    forall i :: 0 <= i < |pairs| ==> Writable(heap, pairs[i].1, levels)
  }

  /** An unfolding does not depend on how many levels are allowed beyond its own. */
  lemma {:induction false} UnfoldStable(heap: Heap, v: Value, levels: nat, more: nat)
    requires Closed(heap) && Points(heap, v) && levels <= more && Unfold(heap, v, levels).Some?
    ensures Unfold(heap, v, more) == Unfold(heap, v, levels)
    decreases levels, 0
  {
    if v.Table? {
      UnfoldPairsStable(heap, heap[v.id].pairs, levels - 1, more - 1);
    }
  }

  lemma {:induction false} UnfoldPairsStable(heap: Heap, pairs: seq<Pair>, levels: nat, more: nat)
    requires Closed(heap) && PairsPoint(heap, pairs) && levels <= more && UnfoldPairs(heap, pairs, levels).Some?
    ensures UnfoldPairs(heap, pairs, more) == UnfoldPairs(heap, pairs, levels)
    decreases levels, |pairs| + 1
  {
    if pairs != [] {
      UnfoldStable(heap, pairs[0].0, levels, more);
      UnfoldStable(heap, pairs[0].1, levels, more);
      UnfoldPairsStable(heap, pairs[1..], levels, more);
    }
  }

  /** Every item of a finite unfolding is finite and nests no deeper. */
  lemma {:induction false} ItemUnfolds(heap: Heap, pairs: seq<Pair>, levels: nat, i: nat)
    requires Closed(heap) && PairsPoint(heap, pairs) && UnfoldPairs(heap, pairs, levels).Some? && i < |pairs|
    ensures var item := Unfold(heap, pairs[i].1, levels);
      item.Some? && item.value.depth <= UnfoldPairs(heap, pairs, levels).value.depth
    decreases |pairs|
  {
    if i > 0 {
      ItemUnfolds(heap, pairs[1..], levels, i - 1);
    }
  }

  /** The tables on the way down all nest deeper than this, so this is none of them. */
  ghost predicate Deeper(heap: Heap, path: Path, depth: nat, all: nat)
    requires Closed(heap)
  {
    forall i :: 0 <= i < |path| ==>
      path[i] in heap && Unfold(heap, Table(path[i]), all).Some? && Unfold(heap, Table(path[i]), all).value.depth > depth
  }

  /** Going down into a table: it is new on the way, and each of its items nests less. */
  lemma StepsDown(heap: Heap, path: Path, id: Id, levels: nat, all: nat)
    requires Closed(heap) && id in heap && levels <= all && Unfold(heap, Table(id), levels).Some?
    requires Deeper(heap, path, Unfold(heap, Table(id), levels).value.depth, all)
    ensures id !in path && levels > 0 && Sits(heap, heap[id])
    ensures UnfoldPairs(heap, heap[id].pairs, levels - 1).Some?
    ensures Deeper(heap, path + [id], UnfoldPairs(heap, heap[id].pairs, levels - 1).value.depth, all)
  {
    UnfoldStable(heap, Table(id), levels, all);
    assert Sits(heap, heap[id]);
    var depth := UnfoldPairs(heap, heap[id].pairs, levels - 1).value.depth;
    forall i | 0 <= i < |path + [id]|
      ensures (path + [id])[i] in heap && Unfold(heap, Table((path + [id])[i]), all).Some?
      ensures Unfold(heap, Table((path + [id])[i]), all).value.depth > depth
    {
      if i < |path| {
        assert (path + [id])[i] == path[i];
      }
    }
  }

  lemma DeeperThanItem(heap: Heap, path: Path, pairs: seq<Pair>, levels: nat, all: nat, i: nat)
    requires Closed(heap) && PairsPoint(heap, pairs) && i < |pairs| && UnfoldPairs(heap, pairs, levels).Some?
    requires Deeper(heap, path, UnfoldPairs(heap, pairs, levels).value.depth, all)
    ensures Unfold(heap, pairs[i].1, levels).Some? && Deeper(heap, path, Unfold(heap, pairs[i].1, levels).value.depth, all)
  {
    ItemUnfolds(heap, pairs, levels, i);
  }

  /** A value with a finite unfolding is encoded exactly when all of it can be written: it
      can fail neither by a cycle nor by anything the unfolding does not show. */
  lemma {:induction false} EncodeIffWritable(heap: Heap, path: Path, v: Value, levels: nat, all: nat)
    requires Closed(heap) && Points(heap, v) && levels <= all && Unfold(heap, v, levels).Some?
    requires Deeper(heap, path, Unfold(heap, v, levels).value.depth, all)
    ensures Encode(heap, path, v).Some? <==> Writable(heap, v, levels)
    decreases levels, 1
  {
    if v.Table? {
      StepsDown(heap, path, v.id, levels, all);
      PairsEncodeIffWritable(heap, path + [v.id], heap[v.id].pairs, levels - 1, all);
      TableEncodes(heap, path + [v.id], heap[v.id]);
    }
  }

  lemma {:induction false} PairsEncodeIffWritable(heap: Heap, path: Path, pairs: seq<Pair>, levels: nat, all: nat)
    requires Closed(heap) && PairsPoint(heap, pairs) && levels <= all && UnfoldPairs(heap, pairs, levels).Some?
    requires Deeper(heap, path, UnfoldPairs(heap, pairs, levels).value.depth, all)
    ensures PairsEncode(heap, path, pairs) <==> WritableItems(heap, pairs, levels)
    decreases levels, 2
  {
    forall i | 0 <= i < |pairs| ensures Encode(heap, path, pairs[i].1).Some? <==> Writable(heap, pairs[i].1, levels) {
      DeeperThanItem(heap, path, pairs, levels, all, i);
      EncodeIffWritable(heap, path, pairs[i].1, levels, all);
    }
  }

  ghost predicate ItemsEncode(heap: Heap, path: Path, items: seq<Value>)
    requires Closed(heap) && AllPoint(heap, items)
  {
    forall i :: 0 <= i < |items| ==> Encode(heap, path, items[i]).Some?
  }

  ghost predicate PairsEncode(heap: Heap, path: Path, pairs: seq<Pair>)
    requires Closed(heap) && AllPairsPoint(heap, pairs)
  {
    forall i :: 0 <= i < |pairs| ==> Encode(heap, path, pairs[i].1).Some?
  }

  /** A table is encoded exactly when it has a shape and every item is encoded. */
  lemma TableEncodes(heap: Heap, path: Path, t: LuaTable)
    requires Closed(heap) && Sits(heap, t)
    ensures EncodeTable(heap, path, t).Some? <==> Shaped(t) && PairsEncode(heap, path, t.pairs)
  {
    PairsEncodeIff(heap, path, t.pairs);
    if t.border > 0 && OnlyIndexes(t.pairs) && Highest(t.pairs) <= 2 * |t.pairs| {
      ItemsPoint(heap, t);
      ItemsEncodeIff(heap, path, Items(t.pairs));
      ListEncodes(heap, path, t);
    }
  }

  lemma {:induction false} PairsEncodeIff(heap: Heap, path: Path, pairs: seq<Pair>)
    requires Closed(heap) && AllPairsPoint(heap, pairs)
    ensures EncodePairs(heap, path, pairs).Some? <==>
      PairsEncode(heap, path, pairs) && forall i :: 0 <= i < |pairs| ==> CanName(pairs[i].0)
    decreases |pairs|
  {
    if pairs != [] {
      PairsEncodeIff(heap, path, pairs[1..]);
      assert forall i :: 1 <= i < |pairs| ==> pairs[i] == pairs[1..][i - 1];
    }
  }

  lemma {:induction false} ItemsEncodeIff(heap: Heap, path: Path, items: seq<Value>)
    requires Closed(heap) && AllPoint(heap, items)
    ensures EncodeItems(heap, path, items).Some? <==> ItemsEncode(heap, path, items)
    decreases |items|
  {
    if items != [] {
      ItemsEncodeIff(heap, path, items[1..]);
      assert forall i :: 1 <= i < |items| ==> items[i] == items[1..][i - 1];
    }
  }

  /** The items of a list are its values and nulls for its holes. */
  lemma ListEncodes(heap: Heap, path: Path, t: LuaTable)
    requires Closed(heap) && Sits(heap, t) && OnlyIndexes(t.pairs) && AllPoint(heap, Items(t.pairs))
    ensures ItemsEncode(heap, path, Items(t.pairs)) <==> PairsEncode(heap, path, t.pairs)
  {
    NoEntryLost(t);
    var items := Items(t.pairs);
    if ItemsEncode(heap, path, items) {
      forall i | 0 <= i < |t.pairs| ensures Encode(heap, path, t.pairs[i].1).Some? {
        assert items[t.pairs[i].0.n - 1] == t.pairs[i].1;
      }
    }
    if PairsEncode(heap, path, t.pairs) {
      forall k | 0 <= k < |items| ensures Encode(heap, path, items[k]).Some? {
        if items[k] != Nil {
          var i :| 0 <= i < |t.pairs| && t.pairs[i].0 == Int(k + 1);
          assert items[t.pairs[i].0.n - 1] == t.pairs[i].1;
        }
      }
    }
  }

  // --------------------------------------------------------------- agreement

  ghost predicate GuardAccepts(heap: Heap, v: Value)
    requires Closed(heap) && Points(heap, v)
  {
    Walk(heap, v, MAX_JSON_DEPTH, MAX_JSON_NODES, true).Some?
  }

  ghost predicate PassAccepts(heap: Heap, v: Value)
    requires Closed(heap) && Points(heap, v)
  {
    Encode(heap, [], v).Some? && WithinBounds(Encode(heap, [], v).value)
  }

  /** What the guard accepts, for every value: an unfolding of bounded depth and size, all of
      its strings UTF-8. */
  lemma GuardAcceptsIff(heap: Heap, v: Value)
    requires Closed(heap) && Points(heap, v)
    ensures var e := Unfold(heap, v, MAX_JSON_DEPTH);
      GuardAccepts(heap, v) <==> e.Some? && e.value.nodes <= MAX_JSON_NODES && !e.value.blobs
  {
    WalkIsUnfolding(heap, v, MAX_JSON_DEPTH, MAX_JSON_NODES, true);
  }

  /** The guard accepts what the pass refuses exactly when it meets something that cannot be
      written, which it does not look for. */
  lemma GuardAcceptsMoreIff(heap: Heap, v: Value)
    requires Closed(heap) && Points(heap, v)
    ensures GuardAccepts(heap, v) && !PassAccepts(heap, v) <==>
      GuardAccepts(heap, v) && !Writable(heap, v, MAX_JSON_DEPTH)
  {
    if GuardAccepts(heap, v) {
      GuardAcceptsIff(heap, v);
      EncodeIffWritable(heap, [], v, MAX_JSON_DEPTH, MAX_JSON_DEPTH);
      if Encode(heap, [], v).Some? {
        GuardIff(heap, v);
      }
    }
  }

  /** The pass accepts what the guard refuses exactly when the indexes of lists, which only
      the guard charges, are what takes it over the budget. */
  lemma PassAcceptsMoreIff(heap: Heap, v: Value)
    requires Closed(heap) && Points(heap, v)
    ensures PassAccepts(heap, v) && !GuardAccepts(heap, v) <==>
      PassAccepts(heap, v) && Visits(Encode(heap, [], v).value) + Slack(heap, [], v) > MAX_JSON_NODES
  {
    if Encode(heap, [], v).Some? {
      GuardIff(heap, v);
    }
  }

  /** A value that can be encoded unfolds exactly as deep as its encoding nests; it then has
      the encoding's nodes and the slack, and the same strings outside UTF-8. */
  lemma EncodedUnfolds(heap: Heap, v: Value, levels: nat)
    requires Closed(heap) && Points(heap, v) && Encode(heap, [], v).Some?
    ensures var ts, e := Encode(heap, [], v).value, Unfold(heap, v, levels);
      && (e.Some? <==> Peak(ts) <= levels)
      && (e.Some? ==> e.value.nodes == Visits(ts) + Slack(heap, [], v) && (e.value.blobs <==> HasOctets(ts)))
  {
    WalkMeasures(heap, [], v);
    var m, slack, e := ValueMeasure(heap, [], v).value, Slack(heap, [], v), Unfold(heap, v, levels);
    var all := m.visits + slack + if e.Some? then e.value.nodes else 0;
    WalkIsUnfolding(heap, v, levels, all, false);
    WalkIsUnfolding(heap, v, levels, all, true);
    ChargedAlike(m, slack, e, levels, all);
  }

  lemma ChargedAlike(m: Measure, slack: nat, e: Option<Extent>, levels: nat, budget: nat)
    requires budget >= m.visits + slack && (e.Some? ==> budget >= e.value.nodes)
    requires forall strict :: Charged(e, budget, strict) == Verdict(m, slack, levels, budget, strict)
    ensures e.Some? <==> m.peak <= levels
    ensures e.Some? ==> e.value.nodes == m.visits + slack && e.value.blobs == m.octets
  {
    assert Charged(e, budget, false) == Verdict(m, slack, levels, budget, false);
    assert Charged(e, budget, true) == Verdict(m, slack, levels, budget, true);
  }

  /** What the pass accepts, for every value, in the same terms as the guard. */
  lemma PassAcceptsIff(heap: Heap, v: Value)
    requires Closed(heap) && Points(heap, v)
    ensures var e := Unfold(heap, v, MAX_JSON_DEPTH);
      PassAccepts(heap, v) <==>
        && e.Some? && !e.value.blobs && Writable(heap, v, MAX_JSON_DEPTH)
        && e.value.nodes - Slack(heap, [], v) <= MAX_JSON_NODES
  {
    if Unfold(heap, v, MAX_JSON_DEPTH).Some? {
      EncodeIffWritable(heap, [], v, MAX_JSON_DEPTH, MAX_JSON_DEPTH);
    }
    if Encode(heap, [], v).Some? {
      EncodedUnfolds(heap, v, MAX_JSON_DEPTH);
    }
  }

  /** Over every value, exactly when the two agree: it does not unfold or has a string outside
      UTF-8, which both refuse; or it is within the guard's budget and can be written; or it
      is over that budget, and cannot be written or is over the budget without its slack too. */
  lemma AgreeIff(heap: Heap, v: Value)
    requires Closed(heap) && Points(heap, v)
    ensures var e := Unfold(heap, v, MAX_JSON_DEPTH);
      (GuardAccepts(heap, v) <==> PassAccepts(heap, v)) <==>
        || e.None? || e.value.blobs
        || (if e.value.nodes <= MAX_JSON_NODES then Writable(heap, v, MAX_JSON_DEPTH)
            else !Writable(heap, v, MAX_JSON_DEPTH) || e.value.nodes - Slack(heap, [], v) > MAX_JSON_NODES)
  {
    GuardAcceptsIff(heap, v);
    PassAcceptsIff(heap, v);
  }

  const MIXED: LuaTable := LuaTable([(Int(1), Bool(true)), (Text([0x61]), Bool(true))], 1, false)

  /** `{ true, a = true }` is accepted by the guard and refused by the pass. */
  lemma GuardAcceptsMore()
    ensures var heap := map[0 := MIXED];
      Closed(heap) && GuardAccepts(heap, Table(0)) && !PassAccepts(heap, Table(0))
  {
    var heap := map[0 := MIXED];
    MixedSits(heap);
    MixedUnfolds(heap, MAX_JSON_DEPTH - 1);
    GuardAcceptsIff(heap, Table(0));
    assert !OnlyIndexes(MIXED.pairs) by {
      assert !IsIndex(MIXED.pairs[1].0);
    }
    GuardAcceptsMoreIff(heap, Table(0));
  }

  lemma MixedSits(heap: Heap)
    ensures Sits(heap, MIXED)
  {
    assert MIXED.pairs[0].0 == Int(1);
  }

  lemma MixedUnfolds(heap: Heap, levels: nat)
    requires Closed(heap) && PairsPoint(heap, MIXED.pairs)
    ensures UnfoldPairs(heap, MIXED.pairs, levels) == Some(Extent(4, 0, false))
  {
    var last := MIXED.pairs[1..];
    assert last == [(Text([0x61]), Bool(true))] && last[1..] == [];
    assert UnfoldPairs(heap, last, levels) == Some(Extent(2, 0, false));
  }
}
