/**
 The encoding of a Lua value with no bound on it: what a table becomes, and the
 refusal of a table met again on the way down. It ends on every heap, because
 the tables on the way down are all different.
 */
module Encoding {
  import opened Basics
  import opened LuaHeap
  import opened JsonTokens

  type Path = seq<Id>

  ghost function Unseen(heap: Heap, path: Path): nat {
    |heap.Keys - set id | id in path|
  }

  lemma UnseenShrinks(heap: Heap, path: Path, id: Id)
    requires id in heap && id !in path
    ensures Unseen(heap, path + [id]) < Unseen(heap, path)
  {
    var before, after := heap.Keys - (set x | x in path), heap.Keys - (set x | x in path + [id]);
    assert after == before - {id};
  }

  /** Whether a value can name a member: strings, numbers and booleans can. */
  predicate CanName(key: Value) {
    key.Text? || key.Int? || key.Bool? || (key.Float? && key.finite)
  }

  function Prepend(out: seq<Token>, rest: Option<seq<Token>>): Option<seq<Token>> {
    match rest
    case None => None
    case Some(ts) => Some(out + ts)
  }

  predicate AllPoint(heap: Heap, values: seq<Value>) {
    forall i :: 0 <= i < |values| ==> Points(heap, values[i])
  }

  predicate AllPairsPoint(heap: Heap, pairs: seq<Pair>) {
    forall i :: 0 <= i < |pairs| ==> Points(heap, pairs[i].1)
  }

  ghost function Encode(heap: Heap, path: Path, v: Value): Option<seq<Token>>
    requires Closed(heap) && Points(heap, v)
    decreases Unseen(heap, path), 0, 0
  {
    match v
    case Table(id) =>
      if id in path then None
      else
        UnseenShrinks(heap, path, id);
        EncodeTable(heap, path + [id], heap[id])
    case Opaque => None
    case Blob(s) => Some([Octets(s)])
    case _ => Some([Atom(v)])
  }

  ghost function EncodeTable(heap: Heap, path: Path, t: LuaTable): Option<seq<Token>>
    requires Closed(heap) && WellFormed(t) && AllPairsPoint(heap, t.pairs)
    decreases Unseen(heap, path), 2, 0
  {
    if t.border == 0 then
      if t.pairs == [] then
        Some(if t.arrayMarked then Enclosed(OpenSeq, [], CloseSeq) else Enclosed(OpenMap, [], CloseMap))
      else EncodeMap(heap, path, t.pairs)
    else if !OnlyIndexes(t.pairs) then None
    else if Highest(t.pairs) > 2 * |t.pairs| then EncodeMap(heap, path, t.pairs)
    else
      ItemsPoint(heap, t);
      EncodeSeq(heap, path, Items(t.pairs))
  }

  ghost function EncodeMap(heap: Heap, path: Path, pairs: seq<Pair>): Option<seq<Token>>
    requires Closed(heap) && AllPairsPoint(heap, pairs)
    decreases Unseen(heap, path), 1, |pairs| + 1
  {
    match EncodePairs(heap, path, pairs)
    case None => None
    case Some(body) => Some(Enclosed(OpenMap, body, CloseMap))
  }

  ghost function EncodeSeq(heap: Heap, path: Path, items: seq<Value>): Option<seq<Token>>
    requires Closed(heap) && AllPoint(heap, items)
    decreases Unseen(heap, path), 1, |items| + 1
  {
    match EncodeItems(heap, path, items)
    case None => None
    case Some(body) => Some(Enclosed(OpenSeq, body, CloseSeq))
  }

  ghost function EncodeItems(heap: Heap, path: Path, items: seq<Value>): Option<seq<Token>>
    requires Closed(heap) && AllPoint(heap, items)
    decreases Unseen(heap, path), 1, |items|
  {
    if items == [] then Some([])
    else
      match Encode(heap, path, items[0])
      case None => None
      case Some(ts) => Prepend(ts, EncodeItems(heap, path, items[1..]))
  }

  ghost function EncodePairs(heap: Heap, path: Path, pairs: seq<Pair>): Option<seq<Token>>
    requires Closed(heap) && AllPairsPoint(heap, pairs)
    decreases Unseen(heap, path), 1, |pairs|
  {
    if pairs == [] then Some([])
    else if !CanName(pairs[0].0) then None
    else
      match Encode(heap, path, pairs[0].1)
      case None => None
      case Some(ts) => Prepend([Name(pairs[0].0)] + ts, EncodePairs(heap, path, pairs[1..]))
  }

  lemma {:induction false} GetPoints(heap: Heap, pairs: seq<Pair>, key: Value)
    requires AllPairsPoint(heap, pairs)
    ensures Points(heap, Get(pairs, key))
  {
    if pairs != [] {
      assert Points(heap, pairs[0].1);
      GetPoints(heap, pairs[1..], key);
    }
  }

  lemma ItemsPoint(heap: Heap, t: LuaTable)
    requires WellFormed(t) && OnlyIndexes(t.pairs) && AllPairsPoint(heap, t.pairs)
    ensures AllPoint(heap, Items(t.pairs))
  {
    ItemAt(t.pairs);
    forall k | 0 <= k < |Items(t.pairs)| ensures Points(heap, Items(t.pairs)[k]) {
      GetPoints(heap, t.pairs, Int(k + 1));
    }
  }

  /** Whatever is encoded closes every container it opens. */
  lemma {:induction false} EncodeBalanced(heap: Heap, path: Path, v: Value)
    requires Closed(heap) && Points(heap, v)
    ensures Encode(heap, path, v).Some? ==> Net(Encode(heap, path, v).value) == 0
    decreases Unseen(heap, path), 0, 0
  {
    if v.Table? && v.id !in path {
      UnseenShrinks(heap, path, v.id);
      TableBalanced(heap, path + [v.id], heap[v.id]);
    }
  }

  lemma {:induction false} TableBalanced(heap: Heap, path: Path, t: LuaTable)
    requires Closed(heap) && WellFormed(t) && AllPairsPoint(heap, t.pairs)
    ensures EncodeTable(heap, path, t).Some? ==> Net(EncodeTable(heap, path, t).value) == 0
    decreases Unseen(heap, path), 2, 0
  {
    PairsBalanced(heap, path, t.pairs);
    if EncodePairs(heap, path, t.pairs).Some? {
      EnclosedMeasures(OpenMap, EncodePairs(heap, path, t.pairs).value, CloseMap);
    }
    EnclosedMeasures(OpenSeq, [], CloseSeq);
    EnclosedMeasures(OpenMap, [], CloseMap);
    if OnlyIndexes(t.pairs) {
      ItemsPoint(heap, t);
      ItemsBalanced(heap, path, Items(t.pairs));
      if EncodeItems(heap, path, Items(t.pairs)).Some? {
        EnclosedMeasures(OpenSeq, EncodeItems(heap, path, Items(t.pairs)).value, CloseSeq);
      }
    }
  }

  lemma {:induction false} ItemsBalanced(heap: Heap, path: Path, items: seq<Value>)
    requires Closed(heap) && AllPoint(heap, items)
    ensures EncodeItems(heap, path, items).Some? ==> Net(EncodeItems(heap, path, items).value) == 0
    decreases Unseen(heap, path), 1, |items|
  {
    if items != [] {
      EncodeBalanced(heap, path, items[0]);
      ItemsBalanced(heap, path, items[1..]);
      if EncodeItems(heap, path, items).Some? {
        MeasuresAppend(Encode(heap, path, items[0]).value, EncodeItems(heap, path, items[1..]).value);
      }
    }
  }

  lemma {:induction false} PairsBalanced(heap: Heap, path: Path, pairs: seq<Pair>)
    requires Closed(heap) && AllPairsPoint(heap, pairs)
    ensures EncodePairs(heap, path, pairs).Some? ==> Net(EncodePairs(heap, path, pairs).value) == 0
    decreases Unseen(heap, path), 1, |pairs|
  {
    if pairs != [] {
      EncodeBalanced(heap, path, pairs[0].1);
      PairsBalanced(heap, path, pairs[1..]);
      if EncodePairs(heap, path, pairs).Some? {
        var ts := Encode(heap, path, pairs[0].1).value;
        MeasuresAppend([Name(pairs[0].0)], ts);
        MeasuresAppend([Name(pairs[0].0)] + ts, EncodePairs(heap, path, pairs[1..]).value);
      }
    }
  }
}
