/** Lua values, and the tables they point to. Sharing and cycles are real: a
    table is an id, and a heap says what each id holds. */
module LuaHeap {
  import opened Basics

  type Id = nat

  /** `Text` is a string that is valid UTF-8, `Blob` one that is not; `Null` is the
      null light userdata; `Opaque` stands for functions, threads and userdata. */
  datatype Value =
    | Nil
    | Null
    | Bool(b: bool)
    | Int(n: int)
    | Float(bits: nat, finite: bool)
    | Text(s: Bytes)
    | Blob(s: Bytes)
    | Table(id: Id)
    | Opaque

  type Pair = (Value, Value)

  /** `pairs` in the order a traversal meets them; `border` is what `raw_len`
      answers, which may be any border; `arrayMarked` is the array metatable. */
  datatype LuaTable = LuaTable(pairs: seq<Pair>, border: nat, arrayMarked: bool)

  type Heap = map<Id, LuaTable>

  function Get(pairs: seq<Pair>, key: Value): Value {
    if pairs == [] then Nil else if pairs[0].0 == key then pairs[0].1 else Get(pairs[1..], key)
  }

  ghost predicate HasKey(pairs: seq<Pair>, key: Value) {
    exists i :: 0 <= i < |pairs| && pairs[i].0 == key
  }

  ghost predicate DistinctKeys(pairs: seq<Pair>) {
    forall i, j :: 0 <= i < j < |pairs| ==> pairs[i].0 != pairs[j].0
  }

  /** What Lua keeps true of every table. */
  ghost predicate WellFormed(t: LuaTable) {
    && DistinctKeys(t.pairs)
    && (forall i :: 0 <= i < |t.pairs| ==> t.pairs[i].0 != Nil && t.pairs[i].1 != Nil)
    && (t.border > 0 ==> HasKey(t.pairs, Int(t.border)))
    && !HasKey(t.pairs, Int(t.border + 1))
  }

  /** What a state can hold beside this heap: a table of it, an integer of 64 bits. */
  predicate Points(heap: Heap, v: Value) {
    (v.Table? ==> v.id in heap) && (v.Int? ==> I64_MIN <= v.n <= I64_MAX)
  }

  /** A well-formed table none of whose keys and values points outside the heap. */
  ghost predicate Sits(heap: Heap, t: LuaTable) {
    WellFormed(t) && forall i :: 0 <= i < |t.pairs| ==> Points(heap, t.pairs[i].0) && Points(heap, t.pairs[i].1)
  }

  ghost predicate Closed(heap: Heap) {
    forall id :: id in heap ==> Sits(heap, heap[id])
  }

  lemma {:induction false} GetAt(pairs: seq<Pair>, i: nat)
    requires DistinctKeys(pairs) && i < |pairs|
    ensures Get(pairs, pairs[i].0) == pairs[i].1
  {
    if i > 0 {
      assert pairs[0].0 != pairs[i].0;
      GetAt(pairs[1..], i - 1);
    }
  }

  lemma {:induction false} GetMissing(pairs: seq<Pair>, key: Value)
    requires !HasKey(pairs, key)
    ensures Get(pairs, key) == Nil
  {
    if pairs != [] {
      assert pairs[0].0 != key;
      forall i | 0 <= i < |pairs| - 1 ensures pairs[1..][i].0 != key {
        assert pairs[1..][i] == pairs[i + 1];
      }
      GetMissing(pairs[1..], key);
    }
  }

  // ------------------------------------------------ tables with a list part

  predicate IsIndex(key: Value) { key.Int? && key.n >= 1 }

  predicate OnlyIndexes(pairs: seq<Pair>) {
    forall i :: 0 <= i < |pairs| ==> IsIndex(pairs[i].0)
  }

  function Highest(pairs: seq<Pair>): (h: nat)
    requires OnlyIndexes(pairs)
    ensures forall i :: 0 <= i < |pairs| ==> pairs[i].0.n <= h
  {
    if pairs == [] then 0
    else
      var rest := Highest(pairs[..|pairs| - 1]);
      var last := pairs[|pairs| - 1].0.n;
      if last > rest then last else rest
  }

  /** The values at indexes `i + 1`, `i + 2`, ... up to the first nil, which is met
      past the highest key if not before. */
  function Sequence(pairs: seq<Pair>, i: nat, limit: nat): seq<Value>
    decreases limit - i
  {
    if i >= limit || Get(pairs, Int(i + 1)) == Nil then []
    else [Get(pairs, Int(i + 1))] + Sequence(pairs, i + 1, limit)
  }

  /** The items written for a table that becomes a list. */
  function Items(pairs: seq<Pair>): seq<Value>
    requires OnlyIndexes(pairs)
  {
    var highest := Highest(pairs);
    if |pairs| == highest then Sequence(pairs, 0, highest)
    else seq(highest, i requires 0 <= i => Get(pairs, Int(i + 1)))
  }

  ghost function Indexes(pairs: seq<Pair>): set<int>
    requires OnlyIndexes(pairs)
  {
    set i | 0 <= i < |pairs| :: pairs[i].0.n
  }

  lemma {:induction false} IndexesCount(pairs: seq<Pair>)
    requires OnlyIndexes(pairs) && DistinctKeys(pairs)
    ensures |Indexes(pairs)| == |pairs|
  {
    if pairs != [] {
      var init, last := pairs[..|pairs| - 1], pairs[|pairs| - 1].0.n;
      IndexesCount(init);
      assert last !in Indexes(init);
      assert Indexes(pairs) == Indexes(init) + {last};
    }
  }

  /** The numbers `1..n`. */
  ghost function UpTo(n: nat): (s: set<int>)
    ensures |s| == n && forall i :: i in s <==> 1 <= i <= n
  {
    if n == 0 then {} else UpTo(n - 1) + {n}
  }

  lemma SubsetOfSameSize(a: set<int>, b: set<int>)
    requires a <= b && |a| == |b|
    ensures a == b
  {
    assert |b - a| == |b| - |a|;
  }

  /** As many distinct positive keys as the highest of them: they are exactly 1..n. */
  lemma Pigeonhole(pairs: seq<Pair>)
    requires OnlyIndexes(pairs) && DistinctKeys(pairs) && |pairs| == Highest(pairs)
    ensures forall k :: 1 <= k <= |pairs| ==> HasKey(pairs, Int(k))
  {
    IndexesCount(pairs);
    SubsetOfSameSize(Indexes(pairs), UpTo(|pairs|));
    forall k | 1 <= k <= |pairs| ensures HasKey(pairs, Int(k)) {
      assert k in Indexes(pairs);
      var i :| 0 <= i < |pairs| && pairs[i].0.n == k;
      assert pairs[i].0 == Int(k);
    }
  }

  lemma {:induction false} FullSequence(pairs: seq<Pair>, i: nat, limit: nat)
    requires i <= limit && forall k :: i < k <= limit ==> Get(pairs, Int(k)) != Nil
    ensures var items := Sequence(pairs, i, limit);
      |items| == limit - i && forall j :: 0 <= j < |items| ==> items[j] == Get(pairs, Int(i + j + 1))
    decreases limit - i
  {
    if i < limit {
      FullSequence(pairs, i + 1, limit);
    }
  }

  lemma ItemAt(pairs: seq<Pair>)
    requires OnlyIndexes(pairs) && DistinctKeys(pairs)
    requires forall i :: 0 <= i < |pairs| ==> pairs[i].1 != Nil
    ensures var items := Items(pairs);
      |items| == Highest(pairs) && forall k :: 0 <= k < |items| ==> items[k] == Get(pairs, Int(k + 1))
  {
    if |pairs| == Highest(pairs) {
      FullList(pairs);
      FullSequence(pairs, 0, |pairs|);
    }
  }

  lemma FullList(pairs: seq<Pair>)
    requires OnlyIndexes(pairs) && DistinctKeys(pairs) && |pairs| == Highest(pairs)
    requires forall i :: 0 <= i < |pairs| ==> pairs[i].1 != Nil
    ensures forall k :: 0 < k <= |pairs| ==> Get(pairs, Int(k)) != Nil
  {
    Pigeonhole(pairs);
    forall k | 0 < k <= |pairs| ensures Get(pairs, Int(k)) != Nil {
      var i :| 0 <= i < |pairs| && pairs[i].0 == Int(k);
      GetAt(pairs, i);
    }
  }

  lemma GetEither(pairs: seq<Pair>, key: Value)
    requires DistinctKeys(pairs) && forall i :: 0 <= i < |pairs| ==> pairs[i].1 != Nil
    ensures Get(pairs, key) == Nil <==> !HasKey(pairs, key)
  {
    if HasKey(pairs, key) {
      var i :| 0 <= i < |pairs| && pairs[i].0 == key;
      GetAt(pairs, i);
    } else {
      GetMissing(pairs, key);
    }
  }

  /** Whichever loop writes the list, item `k` is the value at index `k + 1`: every
      entry is written at its own place, and only the holes are nil. */
  lemma NoEntryLost(t: LuaTable)
    requires WellFormed(t) && OnlyIndexes(t.pairs)
    ensures |Items(t.pairs)| == Highest(t.pairs)
    ensures forall i :: 0 <= i < |t.pairs| ==> Items(t.pairs)[t.pairs[i].0.n - 1] == t.pairs[i].1
    ensures forall k :: 0 <= k < |Items(t.pairs)| ==>
      (Items(t.pairs)[k] == Nil <==> !HasKey(t.pairs, Int(k + 1)))
  {
    var pairs := t.pairs;
    ItemAt(pairs);
    forall i | 0 <= i < |pairs| ensures Items(pairs)[pairs[i].0.n - 1] == pairs[i].1 {
      GetAt(pairs, i);
      assert pairs[i].0 == Int(pairs[i].0.n - 1 + 1);
    }
    forall k | 0 <= k < |Items(pairs)| ensures Items(pairs)[k] == Nil <==> !HasKey(pairs, Int(k + 1)) {
      GetEither(pairs, Int(k + 1));
    }
  }
}
