/**
 The guard that walks a value before a renderer does, beside the one pass that
 bounds itself: what each of them charges, and where they disagree.
 */
module WalkingGuard {
  import opened Basics
  import opened LuaHeap
  import opened JsonTokens
  import opened Encoding
  import opened Bounded

  /** `depth_walk`: what is left of the budget, or a refusal. A cycle runs out of depth. */
  ghost function Walk(heap: Heap, v: Value, remaining: nat, budget: nat, strict: bool): Option<nat>
    requires Closed(heap) && Points(heap, v)
    decreases remaining, 0
  {
    if budget == 0 then None
    else if strict && v.Blob? then None
    else if !v.Table? then Some(budget - 1)
    else if remaining == 0 then None
    else WalkPairs(heap, heap[v.id].pairs, remaining - 1, budget - 1, strict)
  }

  ghost predicate PairsPoint(heap: Heap, pairs: seq<Pair>) {
    forall i :: 0 <= i < |pairs| ==> Points(heap, pairs[i].0) && Points(heap, pairs[i].1)
  }

  ghost function WalkPairs(heap: Heap, pairs: seq<Pair>, remaining: nat, budget: nat, strict: bool): Option<nat>
    requires Closed(heap) && PairsPoint(heap, pairs)
    decreases remaining, |pairs| + 1
  {
    if pairs == [] then Some(budget)
    else
      match Walk(heap, pairs[0].0, remaining, budget, strict)
      case None => None
      case Some(left) =>
        match Walk(heap, pairs[0].1, remaining, left, strict)
        case None => None
        case Some(left') => WalkPairs(heap, pairs[1..], remaining, left', strict)
  }

  /** The nodes the walk charges and the pass does not: the walk counts the index of a list
      item, the pass does not; the pass counts the null it writes in a hole. */
  ghost function Slack(heap: Heap, path: Path, v: Value): nat
    requires Closed(heap) && Points(heap, v)
    decreases Unseen(heap, path), 0
  {
    if v.Table? && v.id !in path then
      UnseenShrinks(heap, path, v.id);
      SlackTable(heap, path + [v.id], heap[v.id])
    else 0
  }

  ghost function SlackTable(heap: Heap, path: Path, t: LuaTable): nat
    requires Closed(heap) && AllPairsPoint(heap, t.pairs)
    decreases Unseen(heap, path), |t.pairs| + 2
  {
    SlackPairs(heap, path, t.pairs)
    + if t.border > 0 && OnlyIndexes(t.pairs) && Highest(t.pairs) <= 2 * |t.pairs| then 2 * |t.pairs| - Highest(t.pairs)
      else 0
  }

  ghost function SlackPairs(heap: Heap, path: Path, pairs: seq<Pair>): nat
    requires Closed(heap) && AllPairsPoint(heap, pairs)
    decreases Unseen(heap, path), |pairs| + 1
  {
    if pairs == [] then 0 else Slack(heap, path, pairs[0].1) + SlackPairs(heap, path, pairs[1..])
  }

  // ------------------------------------------------- a list, seen as pairs

  datatype Measure = Measure(visits: nat, peak: nat, octets: bool)

  function Of(ts: seq<Token>): Measure { Measure(Visits(ts), Peak(ts), HasOctets(ts)) }

  function Plus(a: Measure, b: Measure): Measure {
    Measure(a.visits + b.visits, if a.peak > b.peak then a.peak else b.peak, a.octets || b.octets)
  }

  lemma OfAppend(a: seq<Token>, b: seq<Token>)
    requires Net(a) == 0
    ensures Of(a + b) == Plus(Of(a), Of(b))
  {
    MeasuresAppend(a, b);
  }

  /** What encoding some items measures, if they can be encoded. */
  ghost function ItemsMeasure(heap: Heap, path: Path, items: seq<Value>): Option<Measure>
    requires Closed(heap) && AllPoint(heap, items)
  {
    match EncodeItems(heap, path, items)
    case None => None
    case Some(ts) => Some(Of(ts))
  }

  function Sum(a: Option<Measure>, b: Option<Measure>): Option<Measure> {
    if a.Some? && b.Some? then Some(Plus(a.value, b.value)) else None
  }

  ghost function ValueMeasure(heap: Heap, path: Path, v: Value): Option<Measure>
    requires Closed(heap) && Points(heap, v)
  {
    match Encode(heap, path, v)
    case None => None
    case Some(ts) => Some(Of(ts))
  }

  lemma ItemFirst(heap: Heap, path: Path, v: Value, rest: seq<Value>)
    requires Closed(heap) && Points(heap, v) && AllPoint(heap, rest)
    ensures AllPoint(heap, [v] + rest)
    ensures ItemsMeasure(heap, path, [v] + rest) == Sum(ValueMeasure(heap, path, v), ItemsMeasure(heap, path, rest))
  {
    EncodeBalanced(heap, path, v);
    assert ([v] + rest)[1..] == rest;
    if Encode(heap, path, v).Some? && EncodeItems(heap, path, rest).Some? {
      OfAppend(Encode(heap, path, v).value, EncodeItems(heap, path, rest).value);
    }
  }

  lemma SumAssociates(a: Option<Measure>, b: Option<Measure>, c: Option<Measure>)
    ensures Sum(Sum(a, b), c) == Sum(a, Sum(b, c))
  {
  }

  lemma {:induction false} ItemsAppend(heap: Heap, path: Path, a: seq<Value>, b: seq<Value>)
    requires Closed(heap) && AllPoint(heap, a) && AllPoint(heap, b)
    ensures AllPoint(heap, a + b)
    ensures ItemsMeasure(heap, path, a + b) == Sum(ItemsMeasure(heap, path, a), ItemsMeasure(heap, path, b))
    decreases |a|
  {
    if a == [] {
      assert a + b == b;
      NothingAdded(heap, path, b);
    } else {
      var first, rest := a[0], a[1..];
      assert a == [first] + rest && a + b == [first] + (rest + b);
      ItemsAppend(heap, path, rest, b);
      ItemFirst(heap, path, first, rest);
      ItemFirst(heap, path, first, rest + b);
      SumAssociates(ValueMeasure(heap, path, first), ItemsMeasure(heap, path, rest), ItemsMeasure(heap, path, b));
    }
  }

  lemma NothingAdded(heap: Heap, path: Path, b: seq<Value>)
    requires Closed(heap) && AllPoint(heap, b)
    ensures AllPoint(heap, []) && Sum(ItemsMeasure(heap, path, []), ItemsMeasure(heap, path, b)) == ItemsMeasure(heap, path, b)
  {
    assert ItemsMeasure(heap, path, []) == Some(Measure(0, 0, false));
  }

  lemma ItemBetween(heap: Heap, path: Path, a: seq<Value>, v: Value, b: seq<Value>)
    requires Closed(heap) && AllPoint(heap, a) && AllPoint(heap, b) && Points(heap, v)
    ensures AllPoint(heap, a + ([v] + b))
    ensures ItemsMeasure(heap, path, a + ([v] + b)) ==
      Sum(ItemsMeasure(heap, path, a), Sum(ValueMeasure(heap, path, v), ItemsMeasure(heap, path, b)))
  {
    ItemFirst(heap, path, v, b);
    ItemsAppend(heap, path, a, [v] + b);
  }

  lemma HoleIsOne(heap: Heap, path: Path)
    requires Closed(heap)
    ensures ValueMeasure(heap, path, Nil) == Some(Measure(1, 0, false))
  {
    OneToken(Atom(Nil));
  }

  /** A hole counts one node, whatever takes its place counts its own. */
  predicate Filled(full: Option<Measure>, hole: Option<Measure>, one: Option<Measure>) {
    full.Some? ==> hole.Some? && one.Some? && Plus(hole.value, one.value) == full.value.(visits := full.value.visits + 1)
  }

  lemma FilledBetween(a: Option<Measure>, one: Option<Measure>, b: Option<Measure>)
    ensures Filled(Sum(a, Sum(one, b)), Sum(a, Sum(Some(Measure(1, 0, false)), b)), one)
  {
  }

  /** Writing `v` where a null was. */
  lemma HoleFilled(heap: Heap, path: Path, a: seq<Value>, v: Value, b: seq<Value>)
    requires Closed(heap) && AllPoint(heap, a) && AllPoint(heap, b) && Points(heap, v)
    ensures AllPoint(heap, a + ([v] + b)) && AllPoint(heap, a + ([Nil] + b))
    ensures Filled(ItemsMeasure(heap, path, a + ([v] + b)), ItemsMeasure(heap, path, a + ([Nil] + b)),
                   ValueMeasure(heap, path, v))
  {
    ItemBetween(heap, path, a, v, b);
    ItemBetween(heap, path, a, Nil, b);
    HoleIsOne(heap, path);
    FilledBetween(ItemsMeasure(heap, path, a), ValueMeasure(heap, path, v), ItemsMeasure(heap, path, b));
  }

  /** The first `n` values of a list, a hole being nil. */
  function Slots(pairs: seq<Pair>, n: nat): seq<Value> {
    seq(n, i requires 0 <= i => Get(pairs, Int(i + 1)))
  }

  lemma SlotsPoint(heap: Heap, pairs: seq<Pair>, n: nat)
    requires AllPairsPoint(heap, pairs)
    ensures AllPoint(heap, Slots(pairs, n))
  {
    forall k | 0 <= k < n ensures Points(heap, Slots(pairs, n)[k]) {
      GetPoints(heap, pairs, Int(k + 1));
    }
  }

  ghost predicate List(pairs: seq<Pair>, n: nat) {
    DistinctKeys(pairs) && forall i :: 0 <= i < |pairs| ==> pairs[i].0.Int? && 1 <= pairs[i].0.n <= n
  }

  /** The slots before a pair's index, and after it. */
  lemma SlotSplits(pairs: seq<Pair>, n: nat)
    requires pairs != [] && List(pairs, n)
    ensures var at, rest := pairs[0].0.n - 1, Slots(pairs[1..], n);
      Slots(pairs, n) == rest[..at] + ([pairs[0].1] + rest[at + 1..]) && rest == rest[..at] + ([Nil] + rest[at + 1..])
  {
    var at, rest := pairs[0].0.n - 1, Slots(pairs[1..], n);
    assert !HasKey(pairs[1..], Int(at + 1)) by {
      forall i | 0 <= i < |pairs| - 1 ensures pairs[1..][i].0 != pairs[0].0 {
        assert pairs[1..][i] == pairs[i + 1];
      }
    }
    GetMissing(pairs[1..], Int(at + 1));
    assert rest[at] == Nil;
    var all := rest[..at] + ([pairs[0].1] + rest[at + 1..]);
    forall k | 0 <= k < n ensures Slots(pairs, n)[k] == all[k] {
    }
  }

  ghost function PairsMeasure(heap: Heap, path: Path, pairs: seq<Pair>): Option<Measure>
    requires Closed(heap) && AllPairsPoint(heap, pairs)
  {
    match EncodePairs(heap, path, pairs)
    case None => None
    case Some(ts) => Some(Of(ts))
  }

  lemma PairTokens(key: Value, ts: seq<Token>, rest: seq<Token>)
    requires Net(ts) == 0
    ensures Of([Name(key)] + ts + rest) == Plus(Measure(1, 0, false), Plus(Of(ts), Of(rest)))
  {
    OneToken(Name(key));
    OfAppend([Name(key)], ts);
    MeasuresAppend([Name(key)], ts);
    OfAppend([Name(key)] + ts, rest);
  }

  lemma PairsStep(heap: Heap, path: Path, key: Value, v: Value, rest: seq<Pair>)
    requires Closed(heap) && Points(heap, v) && AllPairsPoint(heap, rest) && CanName(key)
    ensures AllPairsPoint(heap, [(key, v)] + rest)
    ensures EncodePairs(heap, path, [(key, v)] + rest) ==
      match Encode(heap, path, v)
      case None => None
      case Some(ts) => Prepend([Name(key)] + ts, EncodePairs(heap, path, rest))
  {
    assert ([(key, v)] + rest)[1..] == rest;
  }

  lemma PairFirst(heap: Heap, path: Path, pairs: seq<Pair>)
    requires Closed(heap) && AllPairsPoint(heap, pairs) && pairs != [] && CanName(pairs[0].0)
    ensures Points(heap, pairs[0].1) && AllPairsPoint(heap, pairs[1..])
    ensures PairsMeasure(heap, path, pairs) ==
      Sum(Some(Measure(1, 0, false)), Sum(ValueMeasure(heap, path, pairs[0].1), PairsMeasure(heap, path, pairs[1..])))
  {
    assert pairs == [(pairs[0].0, pairs[0].1)] + pairs[1..];
    PairAndRest(heap, path, pairs[0].0, pairs[0].1, pairs[1..]);
  }

  lemma PairAndRest(heap: Heap, path: Path, key: Value, v: Value, rest: seq<Pair>)
    requires Closed(heap) && Points(heap, v) && AllPairsPoint(heap, rest) && CanName(key)
    ensures AllPairsPoint(heap, [(key, v)] + rest)
    ensures PairsMeasure(heap, path, [(key, v)] + rest) ==
      Sum(Some(Measure(1, 0, false)), Sum(ValueMeasure(heap, path, v), PairsMeasure(heap, path, rest)))
  {
    PairsStep(heap, path, key, v, rest);
    EncodeBalanced(heap, path, v);
    if Encode(heap, path, v).Some? && EncodePairs(heap, path, rest).Some? {
      PairTokens(key, Encode(heap, path, v).value, EncodePairs(heap, path, rest).value);
    }
  }

  /** A list written item by item measures what its pairs do, except that the pairs count
      every index and the items every hole. */
  lemma {:induction false} ListMeasures(heap: Heap, path: Path, pairs: seq<Pair>, n: nat)
    requires Closed(heap) && AllPairsPoint(heap, pairs) && List(pairs, n)
    requires AllPoint(heap, Slots(pairs, n)) && ItemsMeasure(heap, path, Slots(pairs, n)).Some?
    ensures PairsMeasure(heap, path, pairs).Some?
    ensures OffBy(ItemsMeasure(heap, path, Slots(pairs, n)).value, PairsMeasure(heap, path, pairs).value, n, |pairs|)
    decreases |pairs|
  {
    if pairs == [] {
      AllHoles(heap, path, Slots(pairs, n));
    } else {
      var rest := Slots(pairs[1..], n);
      var at := pairs[0].0.n - 1;
      SlotsPoint(heap, pairs[1..], n);
      SlotSplits(pairs, n);
      HoleFilled(heap, path, rest[..at], pairs[0].1, rest[at + 1..]);
      ListMeasures(heap, path, pairs[1..], n);
      PairFirst(heap, path, pairs);
      OffByStep(ItemsMeasure(heap, path, rest).value, ItemsMeasure(heap, path, Slots(pairs, n)).value,
                ValueMeasure(heap, path, pairs[0].1).value, PairsMeasure(heap, path, pairs[1..]).value, n, |pairs| - 1);
    }
  }

  /** `n` slots measure what `count` pairs do, but for the holes and the indexes. */
  predicate OffBy(items: Measure, pairs: Measure, n: nat, count: nat) {
    pairs.peak == items.peak && pairs.octets == items.octets && pairs.visits + n == items.visits + 2 * count
  }

  lemma OffByStep(hole: Measure, full: Measure, one: Measure, rest: Measure, n: nat, count: nat)
    requires OffBy(hole, rest, n, count) && Filled(Some(full), Some(hole), Some(one))
    ensures OffBy(full, Plus(Measure(1, 0, false), Plus(one, rest)), n, count + 1)
  {
  }

  lemma {:induction false} AllHoles(heap: Heap, path: Path, items: seq<Value>)
    requires Closed(heap) && AllPoint(heap, items) && forall i :: 0 <= i < |items| ==> items[i] == Nil
    ensures ItemsMeasure(heap, path, items) == Some(Measure(|items|, 0, false))
  {
    if items != [] {
      AllHoles(heap, path, items[1..]);
      ItemFirst(heap, path, Nil, items[1..]);
      OneToken(Atom(Nil));
      assert items == [Nil] + items[1..];
    }
  }

  // ------------------------------------------------------------ comparison

  /** What the walk answers for a value that measures `m` and has some slack. */
  function Verdict(m: Measure, slack: nat, remaining: nat, budget: nat, strict: bool): Option<nat> {
    if m.peak <= remaining && m.visits + slack <= budget && !(strict && m.octets) then Some(budget - m.visits - slack)
    else None
  }

  /** The walk charges the value as one that measures `m` and has this slack, wherever it
      stands. */
  ghost predicate WalksAs(heap: Heap, v: Value, m: Measure, slack: nat)
    requires Closed(heap) && Points(heap, v)
  {
    forall remaining, budget, strict ::
      Walk(heap, v, remaining, budget, strict) == Verdict(m, slack, remaining, budget, strict)
  }

  ghost predicate PairsWalkAs(heap: Heap, pairs: seq<Pair>, m: Measure, slack: nat)
    requires Closed(heap) && PairsPoint(heap, pairs)
  {
    forall remaining, budget, strict ::
      WalkPairs(heap, pairs, remaining, budget, strict) == Verdict(m, slack, remaining, budget, strict)
  }

  /** The walk of a value that can be encoded, in terms of its encoding. */
  lemma {:induction false} WalkMeasures(heap: Heap, path: Path, v: Value)
    requires Closed(heap) && Points(heap, v) && ValueMeasure(heap, path, v).Some?
    ensures WalksAs(heap, v, ValueMeasure(heap, path, v).value, Slack(heap, path, v))
    decreases Unseen(heap, path), 0
  {
    if v.Table? {
      OfTable(heap, path, v.id);
      var inside, pairs := path + [v.id], heap[v.id].pairs;
      WalkPairsMeasures(heap, inside, pairs);
      TableWalks(heap, v, ValueMeasure(heap, path, v).value, Slack(heap, path, v),
                 PairsMeasure(heap, inside, pairs).value, SlackPairs(heap, inside, pairs));
    } else {
      LeafMeasures(heap, path, v);
    }
  }

  lemma TableWalks(heap: Heap, v: Value, m: Measure, slack: nat, all: Measure, slack': nat)
    requires Closed(heap) && v.Table? && v.id in heap && PairsPoint(heap, heap[v.id].pairs)
    requires m.peak == 1 + all.peak && m.octets == all.octets && m.visits + slack == 1 + all.visits + slack'
    requires PairsWalkAs(heap, heap[v.id].pairs, all, slack')
    ensures WalksAs(heap, v, m, slack)
  {
    forall remaining: nat, budget: nat, strict
      ensures Walk(heap, v, remaining, budget, strict) == Verdict(m, slack, remaining, budget, strict)
    {
      TableVerdict(m, slack, all, slack', remaining, budget, strict);
    }
  }

  lemma OfTable(heap: Heap, path: Path, id: Id)
    requires Closed(heap) && id in heap && Encode(heap, path, Table(id)).Some?
    ensures Unseen(heap, path + [id]) < Unseen(heap, path)
    ensures PairsPoint(heap, heap[id].pairs)
    ensures var m, all := ValueMeasure(heap, path, Table(id)).value, PairsMeasure(heap, path + [id], heap[id].pairs);
      && all.Some? && m.peak == 1 + all.value.peak && m.octets == all.value.octets
      && m.visits + Slack(heap, path, Table(id)) == 1 + all.value.visits + SlackPairs(heap, path + [id], heap[id].pairs)
  {
    TableItself(heap, path, id);
    TableMeasures(heap, path + [id], heap[id]);
  }

  lemma TableItself(heap: Heap, path: Path, id: Id)
    requires Closed(heap) && id in heap && Encode(heap, path, Table(id)).Some?
    ensures Unseen(heap, path + [id]) < Unseen(heap, path) && Sits(heap, heap[id])
    ensures Encode(heap, path, Table(id)) == EncodeTable(heap, path + [id], heap[id])
    ensures Slack(heap, path, Table(id)) == SlackTable(heap, path + [id], heap[id])
  {
    UnseenShrinks(heap, path, id);
    assert Sits(heap, heap[id]);
  }

  lemma LeafMeasures(heap: Heap, path: Path, v: Value)
    requires Closed(heap) && !v.Table? && Points(heap, v) && ValueMeasure(heap, path, v).Some?
    ensures WalksAs(heap, v, ValueMeasure(heap, path, v).value, Slack(heap, path, v))
  {
    OneToken(if v.Blob? then Octets(v.s) else Atom(v));
  }

  lemma TableVerdict(m: Measure, slack: nat, all: Measure, slack': nat, remaining: nat, budget: nat, strict: bool)
    requires m.peak == 1 + all.peak && m.octets == all.octets && m.visits + slack == 1 + all.visits + slack'
    ensures Verdict(m, slack, remaining, budget, strict) ==
      if remaining == 0 || budget == 0 then None else Verdict(all, slack', remaining - 1, budget - 1, strict)
  {
  }

  lemma PairVerdict(m: Measure, slack: nat, all: Measure, slack': nat, remaining: nat, budget: nat, strict: bool)
    ensures Verdict(Plus(Measure(1, 0, false), Plus(m, all)), slack + slack', remaining, budget, strict) ==
      if budget == 0 then None
      else
        match Verdict(m, slack, remaining, budget - 1, strict)
        case None => None
        case Some(left) => Verdict(all, slack', remaining, left, strict)
  {
  }

  /** A table measures its pairs and itself, less the slack of a list. */
  lemma TableMeasures(heap: Heap, path: Path, t: LuaTable)
    requires Closed(heap) && Sits(heap, t) && EncodeTable(heap, path, t).Some?
    ensures var m, all := Of(EncodeTable(heap, path, t).value), PairsMeasure(heap, path, t.pairs);
      && all.Some? && m.peak == 1 + all.value.peak && m.octets == all.value.octets
      && m.visits + SlackTable(heap, path, t) == 1 + all.value.visits + SlackPairs(heap, path, t.pairs)
  {
    EnclosedMeasures(OpenSeq, [], CloseSeq);
    EnclosedMeasures(OpenMap, [], CloseMap);
    if t.border == 0 || Highest(t.pairs) > 2 * |t.pairs| {
      PairsBalanced(heap, path, t.pairs);
      if t.border > 0 || t.pairs != [] {
        EnclosedMeasures(OpenMap, EncodePairs(heap, path, t.pairs).value, CloseMap);
      }
    } else {
      ListTableMeasures(heap, path, t);
    }
  }

  lemma ListTableMeasures(heap: Heap, path: Path, t: LuaTable)
    requires Closed(heap) && Sits(heap, t) && EncodeTable(heap, path, t).Some?
    requires t.border > 0 && OnlyIndexes(t.pairs) && Highest(t.pairs) <= 2 * |t.pairs|
    ensures var m, all := Of(EncodeTable(heap, path, t).value), PairsMeasure(heap, path, t.pairs);
      && all.Some? && m.peak == 1 + all.value.peak && m.octets == all.value.octets
      && m.visits + 2 * |t.pairs| - Highest(t.pairs) == 1 + all.value.visits
  {
    var n := Highest(t.pairs);
    ItemsPoint(heap, t);
    ItemAt(t.pairs);
    assert Items(t.pairs) == Slots(t.pairs, n);
    ItemsBalanced(heap, path, Items(t.pairs));
    EnclosedMeasures(OpenSeq, EncodeItems(heap, path, Items(t.pairs)).value, CloseSeq);
    ListMeasures(heap, path, t.pairs, n);
  }

  lemma {:induction false} WalkPairsMeasures(heap: Heap, path: Path, pairs: seq<Pair>)
    requires Closed(heap) && PairsPoint(heap, pairs) && PairsMeasure(heap, path, pairs).Some?
    ensures PairsWalkAs(heap, pairs, PairsMeasure(heap, path, pairs).value, SlackPairs(heap, path, pairs))
    decreases Unseen(heap, path), |pairs| + 1
  {
    if pairs == [] {
      NoPairs(heap, path);
    } else {
      NameFirst(heap, path, pairs);
      PairFirst(heap, path, pairs);
      WalkMeasures(heap, path, pairs[0].1);
      WalkPairsMeasures(heap, path, pairs[1..]);
      PairsWalked(heap, pairs, ValueMeasure(heap, path, pairs[0].1).value, Slack(heap, path, pairs[0].1),
                  PairsMeasure(heap, path, pairs[1..]).value, SlackPairs(heap, path, pairs[1..]));
    }
  }

  lemma NoPairs(heap: Heap, path: Path)
    requires Closed(heap)
    ensures PairsMeasure(heap, path, []) == Some(Measure(0, 0, false)) && SlackPairs(heap, path, []) == 0
    ensures PairsWalkAs(heap, [], Measure(0, 0, false), 0)
  {
  }

  lemma PairsWalked(heap: Heap, pairs: seq<Pair>, m: Measure, slack: nat, all: Measure, slack': nat)
    requires Closed(heap) && PairsPoint(heap, pairs) && pairs != [] && CanName(pairs[0].0) && PairsPoint(heap, pairs[1..])
    requires WalksAs(heap, pairs[0].1, m, slack) && PairsWalkAs(heap, pairs[1..], all, slack')
    ensures PairsWalkAs(heap, pairs, Plus(Measure(1, 0, false), Plus(m, all)), slack + slack')
  {
    forall remaining: nat, budget: nat, strict
      ensures WalkPairs(heap, pairs, remaining, budget, strict) ==
        Verdict(Plus(Measure(1, 0, false), Plus(m, all)), slack + slack', remaining, budget, strict)
    {
      WalkPairsStep(heap, pairs, remaining, budget, strict);
      PairVerdict(m, slack, all, slack', remaining, budget, strict);
    }
  }

  lemma NameFirst(heap: Heap, path: Path, pairs: seq<Pair>)
    requires Closed(heap) && AllPairsPoint(heap, pairs) && PairsMeasure(heap, path, pairs).Some? && pairs != []
    ensures CanName(pairs[0].0)
    ensures SlackPairs(heap, path, pairs) == Slack(heap, path, pairs[0].1) + SlackPairs(heap, path, pairs[1..])
  {
  }

  /** A name costs one node. */
  lemma WalkPairsStep(heap: Heap, pairs: seq<Pair>, remaining: nat, budget: nat, strict: bool)
    requires Closed(heap) && PairsPoint(heap, pairs) && pairs != [] && CanName(pairs[0].0)
    ensures PairsPoint(heap, pairs[1..])
    ensures WalkPairs(heap, pairs, remaining, budget, strict) ==
      if budget == 0 then None
      else
        match Walk(heap, pairs[0].1, remaining, budget - 1, strict)
        case None => None
        case Some(left) => WalkPairs(heap, pairs[1..], remaining, left, strict)
  {
    assert budget > 0 ==> Walk(heap, pairs[0].0, remaining, budget, strict) == Some(budget - 1);
  }

  /** For a value that can be encoded, the guard and the pass enforce the same depth and the
      same rule about strings; the guard also charges the slack. So the guard accepts exactly
      when the pass does and the slack still fits in the budget. */
  lemma GuardIff(heap: Heap, v: Value)
    requires Closed(heap) && Points(heap, v) && Encode(heap, [], v).Some?
    ensures var ts := Encode(heap, [], v).value;
      Walk(heap, v, MAX_JSON_DEPTH, MAX_JSON_NODES, true).Some? <==>
        WithinBounds(ts) && Visits(ts) + Slack(heap, [], v) <= MAX_JSON_NODES
  {
    WalkMeasures(heap, [], v);
  }

  // ------------------------------------------------------- where they differ

  /** A table holding `true` at `1..n`. */
  function Flags(n: nat): seq<Pair> { seq(n, i requires 0 <= i => (Int(i + 1), Bool(true))) }

  function FlagList(n: nat): LuaTable { LuaTable(Flags(n), n, false) }

  lemma {:induction false} FlagItems(heap: Heap, items: seq<Value>, path: Path)
    requires Closed(heap) && forall i :: 0 <= i < |items| ==> items[i] == Bool(true)
    ensures AllPoint(heap, items) && ItemsMeasure(heap, path, items) == Some(Measure(|items|, 0, false))
  {
    if items != [] {
      FlagItems(heap, items[1..], path);
      ItemFirst(heap, path, Bool(true), items[1..]);
      OneToken(Atom(Bool(true)));
      assert items == [Bool(true)] + items[1..];
    }
  }

  lemma {:induction false} FlagsHighest(n: nat)
    ensures OnlyIndexes(Flags(n)) && Highest(Flags(n)) == n
  {
    if n > 0 {
      FlagsHighest(n - 1);
      assert Flags(n)[..n - 1] == Flags(n - 1);
    }
  }

  lemma FlagsSit(heap: Heap, n: nat)
    requires n <= I64_MAX
    ensures Sits(heap, FlagList(n))
  {
    assert n > 0 ==> Flags(n)[n - 1].0 == Int(n);
  }

  lemma FlagsSlack(heap: Heap, path: Path, pairs: seq<Pair>)
    requires Closed(heap) && AllPairsPoint(heap, pairs) && forall i :: 0 <= i < |pairs| ==> !pairs[i].1.Table?
    ensures SlackPairs(heap, path, pairs) == 0
  {
  }

  /** The two do not agree: a list of 500,000 flags is written by the pass and refused by the
      guard, which counts its indexes too. */
  lemma PassAcceptsMore()
    ensures var heap := map[0 := FlagList(500_000)];
      && Closed(heap) && Encode(heap, [], Table(0)).Some? && WithinBounds(Encode(heap, [], Table(0)).value)
      && Walk(heap, Table(0), MAX_JSON_DEPTH, MAX_JSON_NODES, true) == None
  {
    var n := 500_000;
    var heap := map[0 := FlagList(n)];
    FlagsSit(heap, n);
    FlagMeasures(heap, n);
    GuardIff(heap, Table(0));
  }

  lemma FlagMeasures(heap: Heap, n: nat)
    requires 0 < n <= I64_MAX && heap == map[0 := FlagList(n)] && Closed(heap)
    ensures Encode(heap, [], Table(0)).Some? && Of(Encode(heap, [], Table(0)).value) == Measure(1 + n, 1, false)
    ensures Slack(heap, [], Table(0)) == n
  {
    FlagTable(heap, [0], n);
    UnseenShrinks(heap, [], 0);
    assert [] + [0] == [0];
  }

  lemma FlagTable(heap: Heap, path: Path, n: nat)
    requires 0 < n <= I64_MAX && Closed(heap)
    ensures WellFormed(FlagList(n)) && AllPairsPoint(heap, Flags(n)) && SlackTable(heap, path, FlagList(n)) == n
    ensures EncodeTable(heap, path, FlagList(n)).Some?
    ensures Of(EncodeTable(heap, path, FlagList(n)).value) == Measure(1 + n, 1, false)
  {
    var t := FlagList(n);
    FlagsSit(heap, n);
    FlagsHighest(n);
    FlagsSlack(heap, path, t.pairs);
    FlagValues(n);
    FlagItems(heap, Items(t.pairs), path);
    ItemsBalanced(heap, path, Items(t.pairs));
    EnclosedMeasures(OpenSeq, EncodeItems(heap, path, Items(t.pairs)).value, CloseSeq);
  }

  lemma FlagValues(n: nat)
    requires 0 < n <= I64_MAX
    ensures OnlyIndexes(Flags(n)) && |Items(Flags(n))| == n
    ensures forall k :: 0 <= k < n ==> Items(Flags(n))[k] == Bool(true)
  {
    FlagsHighest(n);
    FlagsSit(map[], n);
    NoEntryLost(FlagList(n));
    forall k | 0 <= k < n ensures Items(Flags(n))[k] == Bool(true) {
      assert Flags(n)[k].0.n - 1 == k;
    }
  }
}
