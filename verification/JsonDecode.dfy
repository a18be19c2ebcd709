/**
 `json:decode` builds tables for a document; `json:encode` writes them back.
 Together: a document decoded and encoded is the same document.
 */
module JsonDecode {
  import opened Basics
  import opened LuaHeap
  import opened JsonTokens
  import opened Encoding
  import opened Bounded
  import opened JsonRoundTrip

  // ------------------------------------------------------------- measures

  /** How many values a document has, member names included. */
  function Nodes(j: Json): nat
    decreases j, 0
  {
    match j
    case JArray(items) => 1 + NodesOfItems(items)
    case JObject(members) => 1 + NodesOfMembers(members)
    case _ => 1
  }

  function NodesOfItems(items: seq<Json>): nat {
    if items == [] then 0 else Nodes(items[0]) + NodesOfItems(items[1..])
  }

  function NodesOfMembers(members: seq<Member>): nat {
    if members == [] then 0 else 1 + Nodes(members[0].value) + NodesOfMembers(members[1..])
  }

  function Max(a: nat, b: nat): nat { if a > b then a else b }

  /** How deep its containers nest. */
  function Depth(j: Json): nat
    decreases j, 0
  {
    match j
    case JArray(items) => 1 + DepthOfItems(items)
    case JObject(members) => 1 + DepthOfMembers(members)
    case _ => 0
  }

  function DepthOfItems(items: seq<Json>): nat {
    if items == [] then 0 else Max(Depth(items[0]), DepthOfItems(items[1..]))
  }

  function DepthOfMembers(members: seq<Member>): nat {
    if members == [] then 0 else Max(Depth(members[0].value), DepthOfMembers(members[1..]))
  }

  ghost predicate Measured(ts: seq<Token>, nodes: nat, depth: nat) {
    (Visits(ts), Net(ts), Peak(ts), HasOctets(ts)) == (nodes, 0, depth, false)
  }

  lemma MeasuredAppend(a: seq<Token>, m: nat, d: nat, b: seq<Token>, n: nat, e: nat)
    requires Measured(a, m, d) && Measured(b, n, e)
    ensures Measured(a + b, m + n, Max(d, e))
  {
    MeasuresAppend(a, b);
  }

  lemma {:induction false} TokensMeasured(j: Json)
    ensures Measured(Tokens(j), Nodes(j), Depth(j))
    decreases j, 0
  {
    match j
    case JArray(items) =>
      ItemTokensMeasured(items);
      EnclosedMeasures(OpenSeq, ItemTokens(items), CloseSeq);
    case JObject(members) =>
      MemberTokensMeasured(members);
      EnclosedMeasures(OpenMap, MemberTokens(members), CloseMap);
    case _ =>
      OneToken(Tokens(j)[0]);
      assert Tokens(j) == [Tokens(j)[0]];
  }

  lemma {:induction false} ItemTokensMeasured(items: seq<Json>)
    ensures Measured(ItemTokens(items), NodesOfItems(items), DepthOfItems(items))
    decreases items, 1
  {
    if items != [] {
      TokensMeasured(items[0]);
      ItemTokensMeasured(items[1..]);
      MeasuredAppend(Tokens(items[0]), Nodes(items[0]), Depth(items[0]),
                     ItemTokens(items[1..]), NodesOfItems(items[1..]), DepthOfItems(items[1..]));
    }
  }

  lemma {:induction false} MemberTokensMeasured(members: seq<Member>)
    ensures Measured(MemberTokens(members), NodesOfMembers(members), DepthOfMembers(members))
    decreases members, 1
  {
    if members != [] {
      var j := members[0].value;
      TokensMeasured(j);
      OneToken(Name(Text(members[0].name)));
      MeasuredAppend([Name(Text(members[0].name))], 1, 0, Tokens(j), Nodes(j), Depth(j));
      MemberTokensMeasured(members[1..]);
      MeasuredAppend([Name(Text(members[0].name))] + Tokens(j), 1 + Nodes(j), Depth(j),
                     MemberTokens(members[1..]), NodesOfMembers(members[1..]), DepthOfMembers(members[1..]));
    }
  }

  // -------------------------------------------------------------- decoding

  ghost predicate DistinctNames(members: seq<Member>) {
    forall i, k :: 0 <= i < k < |members| ==> members[i].name != members[k].name
  }

  /** A parsed document names each member of an object once, and has no list longer than
      an index can count. */
  ghost predicate Proper(j: Json)
    decreases j
  {
    match j
    case JArray(items) => |items| <= I64_MAX && forall i :: 0 <= i < |items| ==> Proper(items[i])
    case JObject(members) =>
      DistinctNames(members) && forall i :: 0 <= i < |members| ==> Proper(members[i].value)
    case _ => true
  }

  function ArrayOf(values: seq<Value>): seq<Pair> {
    seq(|values|, i requires 0 <= i < |values| => (Int(i + 1), values[i]))
  }

  function ObjectOf(members: seq<Member>, values: seq<Value>): seq<Pair>
    requires |members| == |values|
  {
    seq(|values|, i requires 0 <= i < |values| => (Text(members[i].name), values[i]))
  }

  /** The bits of the double nearest to an integer in `[2^63, 2^64)`, ties to even: the
      top 53 bits, rounded, below an exponent that the rounding may carry into. */
  function NearestDouble(n: nat): nat
    requires I64_MAX < n <= U64_MAX
  {
    var kept, cut := n / 0x800, n % 0x800;
    var rounded := if cut > 0x400 || (cut == 0x400 && kept % 2 == 1) then kept + 1 else kept;
    1086 * 0x10_0000_0000_0000 + (rounded - 0x10_0000_0000_0000)
  }

  /** The number a double between 2^63 and 2^64 stands for: a mantissa of 53 bits, the
      first of them not written, times 2^11; at the top the exponent is one more. */
  function DoubleValue(bits: nat): nat
    requires 1086 * 0x10_0000_0000_0000 <= bits <= 1087 * 0x10_0000_0000_0000
  {
    if bits == 1087 * 0x10_0000_0000_0000 then 0x1_0000_0000_0000_0000
    else (0x10_0000_0000_0000 + (bits - 1086 * 0x10_0000_0000_0000)) * 0x800
  }

  function Distance(a: nat, b: nat): nat { if a < b then b - a else a - b }

  /** No double is nearer to the integer, and of two as near the even one is taken. */
  lemma NearestDoubleIs(n: nat, other: nat)
    requires 0x8000_0000_0000_0000 <= n < 0x1_0000_0000_0000_0000
    requires 1086 * 0x10_0000_0000_0000 <= other <= 1087 * 0x10_0000_0000_0000
    ensures 1086 * 0x10_0000_0000_0000 <= NearestDouble(n) <= 1087 * 0x10_0000_0000_0000
    ensures Distance(DoubleValue(NearestDouble(n)), n) <= Distance(DoubleValue(other), n)
    ensures Distance(DoubleValue(NearestDouble(n)), n) == Distance(DoubleValue(other), n) && other != NearestDouble(n) ==>
      NearestDouble(n) % 2 == 0
  {
    var kept, cut := n / 0x800, n % 0x800;
    assert n == kept * 0x800 + cut;
    var m := 0x10_0000_0000_0000 + (other - 1086 * 0x10_0000_0000_0000);
    assert DoubleValue(other) == m * 0x800;
    var r := 0x10_0000_0000_0000 + (NearestDouble(n) - 1086 * 0x10_0000_0000_0000);
    assert r == kept || r == kept + 1;
    assert DoubleValue(NearestDouble(n)) == r * 0x800;
  }

  /** The document a Lua state holds after decoding: an integer beyond 64 signed bits is a
      float there. */
  function AsLua(j: Json): Json
    decreases j
  {
    match j
    case JInt(n) => if n <= I64_MAX then j else JFloat(NearestDouble(n))
    case JArray(items) => JArray(seq(|items|, i requires 0 <= i < |items| => AsLua(items[i])))
    case JObject(members) =>
      JObject(seq(|members|, i requires 0 <= i < |members| => Member(members[i].name, AsLua(members[i].value))))
    case _ => j
  }

  /** Every integer of the document is a Lua integer. */
  predicate IntsFit(j: Json)
    decreases j
  {
    match j
    case JInt(n) => n <= I64_MAX
    case JArray(items) => forall i :: 0 <= i < |items| ==> IntsFit(items[i])
    case JObject(members) => forall i :: 0 <= i < |members| ==> IntsFit(members[i].value)
    case _ => true
  }

  lemma {:induction false} AsLuaIff(j: Json)
    ensures AsLua(j) == j <==> IntsFit(j)
    decreases j
  {
    match j
    case JArray(items) =>
      forall i | 0 <= i < |items| ensures AsLua(items[i]) == items[i] <==> IntsFit(items[i]) {
        AsLuaIff(items[i]);
      }
      assert AsLua(j).items == items <==> forall i :: 0 <= i < |items| ==> AsLua(items[i]) == items[i];
    case JObject(members) =>
      forall i | 0 <= i < |members| ensures AsLua(members[i].value) == members[i].value <==> IntsFit(members[i].value) {
        AsLuaIff(members[i].value);
      }
      assert AsLua(j).members == members <==>
        forall i :: 0 <= i < |members| ==> AsLua(members[i].value) == members[i].value;
    case _ =>
  }

  lemma {:induction false} AsLuaFits(j: Json)
    ensures IntsFit(AsLua(j)) && Nodes(AsLua(j)) == Nodes(j) && Depth(AsLua(j)) == Depth(j)
    decreases j, 0
  {
    match j
    case JArray(items) => AsLuaItemsFit(items, AsLua(j).items);
    case JObject(members) => AsLuaMembersFit(members, AsLua(j).members);
    case _ =>
  }

  lemma {:induction false} AsLuaItemsFit(items: seq<Json>, after: seq<Json>)
    requires |after| == |items| && forall i :: 0 <= i < |items| ==> after[i] == AsLua(items[i])
    ensures forall i :: 0 <= i < |after| ==> IntsFit(after[i])
    ensures NodesOfItems(after) == NodesOfItems(items) && DepthOfItems(after) == DepthOfItems(items)
    decreases items, 1
  {
    if items != [] {
      AsLuaFits(items[0]);
      AsLuaItemsFit(items[1..], after[1..]);
      assert forall i :: 1 <= i < |after| ==> after[i] == after[1..][i - 1];
    }
  }

  lemma {:induction false} AsLuaMembersFit(members: seq<Member>, after: seq<Member>)
    requires |after| == |members|
    requires forall i :: 0 <= i < |members| ==> after[i] == Member(members[i].name, AsLua(members[i].value))
    ensures forall i :: 0 <= i < |after| ==> IntsFit(after[i].value)
    ensures NodesOfMembers(after) == NodesOfMembers(members) && DepthOfMembers(after) == DepthOfMembers(members)
    decreases members, 1
  {
    if members != [] {
      AsLuaFits(members[0].value);
      AsLuaMembersFit(members[1..], after[1..]);
      assert forall i :: 1 <= i < |after| ==> after[i] == after[1..][i - 1];
    }
  }

  lemma {:induction false} AsLuaProper(j: Json)
    requires Proper(j)
    ensures Proper(AsLua(j))
    decreases j
  {
    match j
    case JArray(items) =>
      forall i | 0 <= i < |items| ensures Proper(AsLua(items[i])) {
        AsLuaProper(items[i]);
      }
    case JObject(members) =>
      forall i | 0 <= i < |members| ensures Proper(AsLua(members[i].value)) {
        AsLuaProper(members[i].value);
      }
    case _ =>
  }

  /** The value decoding gives, in a heap grown by the tables it takes. */
  function Decode(heap: Heap, j: Json): (Heap, Value)
    decreases j, 0
  {
    match j
    case JNull => (heap, Null)
    case JBool(b) => (heap, Bool(b))
    case JInt(n) => (heap, if n <= I64_MAX then Int(n) else Float(NearestDouble(n), true))
    case JFloat(bits) => (heap, Float(bits, true))
    case JString(s) => (heap, Text(s))
    case JArray(items) =>
      var (h, values) := DecodeItems(heap, items);
      (h[|h| := LuaTable(ArrayOf(values), |values|, true)], Table(|h|))
    case JObject(members) =>
      var (h, values) := DecodeMembers(heap, members);
      (h[|h| := LuaTable(ObjectOf(members, values), 0, false)], Table(|h|))
  }

  function DecodeItems(heap: Heap, items: seq<Json>): (r: (Heap, seq<Value>))
    ensures |r.1| == |items|
    decreases items, 1
  {
    if items == [] then (heap, [])
    else
      var (h, v) := Decode(heap, items[0]);
      var (h', vs) := DecodeItems(h, items[1..]);
      (h', [v] + vs)
  }

  function DecodeMembers(heap: Heap, members: seq<Member>): (r: (Heap, seq<Value>))
    ensures |r.1| == |members|
    decreases members, 1
  {
    if members == [] then (heap, [])
    else
      var (h, v) := Decode(heap, members[0].value);
      var (h', vs) := DecodeMembers(h, members[1..]);
      (h', [v] + vs)
  }

  /** Ids are handed out in order. */
  ghost predicate Dense(heap: Heap) {
    forall id :: id in heap <==> id < |heap|
  }

  ghost predicate Extends(before: Heap, after: Heap) {
    forall id :: id in before ==> id in after && after[id] == before[id]
  }

  ghost predicate Sound(heap: Heap) { Dense(heap) && Closed(heap) }

  lemma {:induction false} HoldsExtends(before: Heap, after: Heap, v: Value, j: Json)
    requires Extends(before, after) && Holds(before, v, j)
    ensures Holds(after, v, j)
    decreases j
  {
    match j
    case JArray(items) =>
      forall i | 0 <= i < |items| ensures Holds(after, Get(after[v.id].pairs, Int(i + 1)), items[i]) {
        HoldsExtends(before, after, Get(before[v.id].pairs, Int(i + 1)), items[i]);
      }
    case JObject(members) =>
      forall i | 0 <= i < |members| ensures Holds(after, after[v.id].pairs[i].1, members[i].value) {
        HoldsExtends(before, after, before[v.id].pairs[i].1, members[i].value);
      }
    case _ =>
  }

  lemma NewTable(heap: Heap, t: LuaTable)
    requires Sound(heap) && Sits(heap, t)
    ensures Sound(heap[|heap| := t]) && Extends(heap, heap[|heap| := t])
  {
    NewIsDense(heap, t);
    NewIsClosed(heap, |heap|, t);
  }

  lemma NewIsDense(heap: Heap, t: LuaTable)
    requires Dense(heap)
    ensures Dense(heap[|heap| := t]) && |heap| !in heap
  {
    var n := |heap|;
    assert n !in heap;
    OneMore(heap, n, t);
  }

  lemma OneMore(heap: Heap, id: Id, t: LuaTable)
    requires id !in heap
    ensures |heap[id := t]| == |heap| + 1
  {
    assert heap[id := t].Keys == heap.Keys + {id};
    assert |heap[id := t].Keys| == |heap[id := t]| && |heap.Keys| == |heap|;
  }

  lemma NewIsClosed(heap: Heap, id: Id, t: LuaTable)
    requires Closed(heap) && Sits(heap, t) && id !in heap
    ensures Closed(heap[id := t])
  {
    var h := heap[id := t];
    forall k | k in h ensures Sits(h, h[k]) {
      var u := if k == id then t else heap[k];
      assert Sits(heap, u);
      SitsExtends(heap, h, u);
    }
  }

  lemma SitsExtends(before: Heap, after: Heap, t: LuaTable)
    requires Sits(before, t) && Extends(before, after)
    ensures Sits(after, t)
  {
  }

  lemma {:induction false} HighestOfArray(values: seq<Value>, n: nat)
    requires n <= |values|
    ensures OnlyIndexes(ArrayOf(values)[..n]) && Highest(ArrayOf(values)[..n]) == n
  {
    if n > 0 {
      HighestOfArray(values, n - 1);
      assert ArrayOf(values)[..n][..n - 1] == ArrayOf(values)[..n - 1];
    }
  }

  lemma ArrayWellFormed(values: seq<Value>)
    requires |values| <= I64_MAX && forall i :: 0 <= i < |values| ==> values[i] != Nil
    ensures WellFormed(LuaTable(ArrayOf(values), |values|, true))
    ensures ArrayPairs(ArrayOf(values), |values|)
    ensures forall i :: 0 <= i < |values| ==> Get(ArrayOf(values), Int(i + 1)) == values[i]
  {
    var pairs := ArrayOf(values);
    if |values| > 0 {
      assert pairs[|values| - 1].0 == Int(|values|);
    }
    HighestOfArray(values, |values|);
    assert pairs[..|values|] == pairs;
    forall i | 0 <= i < |values| ensures Get(pairs, Int(i + 1)) == values[i] {
      GetAt(pairs, i);
    }
  }

  /** Decoding gives a value that holds the document, as far as Lua can, and touches no
      older table. */
  lemma {:induction false} DecodeHolds(heap: Heap, j: Json)
    requires Sound(heap) && Proper(j)
    ensures var (h, v) := Decode(heap, j);
      Sound(h) && Extends(heap, h) && Points(h, v) && v != Nil && Holds(h, v, AsLua(j))
    decreases j, 0
  {
    if j.JArray? {
      DecodeArrayHolds(heap, j);
    } else if j.JObject? {
      DecodeObjectHolds(heap, j);
    }
  }

  lemma {:induction false} DecodeArrayHolds(heap: Heap, j: Json)
    requires Sound(heap) && Proper(j) && j.JArray?
    ensures var (h, v) := Decode(heap, j);
      Sound(h) && Extends(heap, h) && Points(h, v) && v != Nil && Holds(h, v, AsLua(j))
    decreases j, 0, 0
  {
    var (h, values) := DecodeItems(heap, j.items);
    DecodeItemsHold(heap, j.items);
    var t := LuaTable(ArrayOf(values), |values|, true);
    ArrayWellFormed(values);
    NewTable(h, t);
    var after := h[|h| := t];
    forall i | 0 <= i < |values| ensures Holds(after, Get(t.pairs, Int(i + 1)), AsLua(j.items[i])) {
      HoldsExtends(h, after, values[i], AsLua(j.items[i]));
    }
  }

  lemma {:induction false} DecodeItemsHold(heap: Heap, items: seq<Json>)
    requires Sound(heap) && forall i :: 0 <= i < |items| ==> Proper(items[i])
    ensures var (h, vs) := DecodeItems(heap, items);
      Sound(h) && Extends(heap, h)
      && forall i :: 0 <= i < |items| ==> Points(h, vs[i]) && vs[i] != Nil && Holds(h, vs[i], AsLua(items[i]))
    decreases items, 1
  {
    if items != [] {
      var (h1, v) := Decode(heap, items[0]);
      DecodeHolds(heap, items[0]);
      DecodeItemsHold(h1, items[1..]);
      var (h, vs) := DecodeItems(h1, items[1..]);
      HoldsExtends(h1, h, v, AsLua(items[0]));
      forall i | 0 < i < |items|
        ensures Points(h, vs[i - 1]) && vs[i - 1] != Nil && Holds(h, vs[i - 1], AsLua(items[i]))
      {
        assert items[i] == items[1..][i - 1];
      }
    }
  }

  lemma {:induction false} DecodeObjectHolds(heap: Heap, j: Json)
    requires Sound(heap) && Proper(j) && j.JObject?
    ensures var (h, v) := Decode(heap, j);
      Sound(h) && Extends(heap, h) && Points(h, v) && v != Nil && Holds(h, v, AsLua(j))
    decreases j, 0, 0
  {
    var (h, values) := DecodeMembers(heap, j.members);
    DecodeMembersHold(heap, j.members);
    var t := LuaTable(ObjectOf(j.members, values), 0, false);
    NewTable(h, t);
    var after := h[|h| := t];
    forall i | 0 <= i < |values| ensures Holds(after, t.pairs[i].1, AsLua(j.members[i].value)) {
      HoldsExtends(h, after, values[i], AsLua(j.members[i].value));
    }
  }

  lemma {:induction false} DecodeMembersHold(heap: Heap, members: seq<Member>)
    requires Sound(heap) && forall i :: 0 <= i < |members| ==> Proper(members[i].value)
    ensures var (h, vs) := DecodeMembers(heap, members);
      Sound(h) && Extends(heap, h)
      && forall i :: 0 <= i < |members| ==> Points(h, vs[i]) && vs[i] != Nil && Holds(h, vs[i], AsLua(members[i].value))
    decreases members, 1
  {
    if members != [] {
      var (h1, v) := Decode(heap, members[0].value);
      DecodeHolds(heap, members[0].value);
      DecodeMembersHold(h1, members[1..]);
      var (h, vs) := DecodeMembers(h1, members[1..]);
      HoldsExtends(h1, h, v, AsLua(members[0].value));
      forall i | 0 < i < |members|
        ensures Points(h, vs[i - 1]) && vs[i - 1] != Nil && Holds(h, vs[i - 1], AsLua(members[i].value))
      {
        assert members[i] == members[1..][i - 1];
      }
    }
  }

  // ------------------------------------------------------------ round trip

  /** Decode, then encode, then read: the document as Lua holds it, and the guarded pass
      accepts it exactly when its depth and size are inside the bounds. */
  lemma DecodeEncodeReads(heap: Heap, j: Json)
    requires Sound(heap) && Proper(j)
    ensures var (h, v) := Decode(heap, j); var ts := Tokens(AsLua(j));
      && Closed(h) && Points(h, v)
      && Encode(h, [], v) == Some(ts) && Read(ts) == Some((AsLua(j), []))
      && (WithinBounds(ts) <==> Depth(j) <= 128 && Nodes(j) <= 1_000_000)
  {
    var (h, v) := Decode(heap, j);
    DecodeHolds(heap, j);
    EncodeHeld(h, [], [], v, AsLua(j));
    ReadTokens(AsLua(j), []);
    assert Tokens(AsLua(j)) + [] == Tokens(AsLua(j));
    TokensMeasured(AsLua(j));
    AsLuaFits(j);
  }

  /** What a document reads back as after it was decoded and encoded. */
  ghost function Trip(heap: Heap, j: Json): Option<(Json, seq<Token>)>
    requires Sound(heap) && Proper(j)
  {
    DecodeEncodeReads(heap, j);
    var (h, v) := Decode(heap, j);
    Read(Encode(h, [], v).value)
  }

  /** The trip gives back the same document exactly when all its integers are Lua integers. */
  lemma DecodeEncodeIsIdentityIff(heap: Heap, j: Json)
    requires Sound(heap) && Proper(j)
    ensures Trip(heap, j) == Some((j, [])) <==> IntsFit(j)
  {
    DecodeEncodeReads(heap, j);
    AsLuaIff(j);
  }

  /** A second trip changes nothing, whatever the document: decode, encode and decode again
      is a fixpoint. */
  lemma DecodeEncodeIsAFixpoint(heap: Heap, j: Json)
    requires Sound(heap) && Proper(j)
    ensures Trip(heap, j) == Some((AsLua(j), [])) && Proper(AsLua(j))
    ensures Trip(heap, AsLua(j)) == Trip(heap, j)
  {
    DecodeEncodeReads(heap, j);
    AsLuaProper(j);
    DecodeEncodeReads(heap, AsLua(j));
    AsLuaFits(j);
    AsLuaIff(AsLua(j));
  }

  /** The largest 64-bit integer comes back as the float `2^64`. */
  lemma LargeIntegerBecomesFloat(heap: Heap)
    requires Sound(heap)
    ensures Trip(heap, JInt(18446744073709551615)) == Some((JFloat(0x43F0_0000_0000_0000), []))
  {
    DecodeEncodeReads(heap, JInt(18446744073709551615));
  }

  // --------------------------------------------------------------- nesting

  /** The parser's recursion limit. */
  const MAX_DECODE_NESTING: nat := 127

  /** `json:decode` on what was written: a refusal past the limit, or the value. */
  function DecodeText(heap: Heap, ts: seq<Token>): Option<(Heap, Value)> {
    match Read(ts)
    case None => None
    case Some((j, rest)) => if rest == [] && Depth(j) <= MAX_DECODE_NESTING then Some(Decode(heap, j)) else None
  }

  /** A text is decoded exactly when it is one document and nothing more, at most 127 deep. */
  lemma DecodeTextIff(heap: Heap, j: Json, more: seq<Token>)
    ensures DecodeText(heap, Tokens(j) + more) ==
      if more == [] && Depth(j) <= 127 then Some(Decode(heap, j)) else None
  {
    ReadTokens(j, more);
  }

  /** For every value that is encoded as a document: the pass writes it exactly within the
      bounds, and what is written is decoded again exactly when it nests at most 127 deep. The
      two directions do not share one bound. */
  lemma WrittenDecodesIff(heap: Heap, v: Value, j: Json, other: Heap)
    requires Closed(heap) && Points(heap, v) && Encode(heap, [], v) == Some(Tokens(j))
    ensures var ts := Encode(heap, [], v).value;
      && (WithinBounds(ts) <==> Depth(j) <= 128 && Nodes(j) <= 1_000_000)
      && (DecodeText(other, ts).Some? <==> Depth(j) <= 127)
      && (WithinBounds(ts) && DecodeText(other, ts).None? <==> Depth(j) == 128 && Nodes(j) <= 1_000_000)
  {
    TokensMeasured(j);
    ReadTokens(j, []);
    assert Tokens(j) + [] == Tokens(j);
  }

  function Nested(depth: nat): Json {
    if depth == 0 then JNull else JArray([Nested(depth - 1)])
  }

  lemma {:induction false} NestedMeasures(depth: nat)
    ensures Depth(Nested(depth)) == depth && Nodes(Nested(depth)) == depth + 1
  {
    if depth > 0 {
      NestedMeasures(depth - 1);
      OneItem(Nested(depth - 1));
    }
  }

  lemma OneItem(j: Json)
    ensures DepthOfItems([j]) == Depth(j) && NodesOfItems([j]) == Nodes(j)
  {
    var items := [j];
    assert items[1..] == [];
    assert DepthOfItems(items[1..]) == 0 && NodesOfItems(items[1..]) == 0;
  }

  lemma {:induction false} NestedIsPlain(depth: nat)
    ensures Proper(Nested(depth)) && IntsFit(Nested(depth))
  {
    if depth > 0 {
      NestedIsPlain(depth - 1);
    }
  }

  /** The tables that hold 128 nested arrays. */
  ghost function NestedTables(heap: Heap): (r: (Heap, Value))
    requires Sound(heap)
    ensures Closed(r.0) && Points(r.0, r.1) && Encode(r.0, [], r.1) == Some(Tokens(Nested(128)))
  {
    NestedIsPlain(128);
    AsLuaIff(Nested(128));
    DecodeEncodeReads(heap, Nested(128));
    Decode(heap, Nested(128))
  }

  /** 128 nested tables are written and refused on the way back. */
  lemma WrittenButNotDecoded(heap: Heap, other: Heap)
    requires Sound(heap)
    ensures var (h, v) := NestedTables(heap); var ts := Encode(h, [], v).value;
      WithinBounds(ts) && DecodeText(other, ts).None?
  {
    var (h, v) := NestedTables(heap);
    NestedMeasures(128);
    WrittenDecodesIff(h, v, Nested(128), other);
  }

  /** `v` decodes `j`, in a heap whose tables may traverse their members in any order. */
  ghost predicate Decoded(heap: Heap, v: Value, j: Json)
    decreases j
  {
    match j
    case JArray(items) =>
      v.Table? && v.id in heap && heap[v.id].arrayMarked && ArrayPairs(heap[v.id].pairs, |items|)
      && forall i :: 0 <= i < |items| ==> Decoded(heap, Get(heap[v.id].pairs, Int(i + 1)), items[i])
    case JObject(members) =>
      v.Table? && v.id in heap && !heap[v.id].arrayMarked && |heap[v.id].pairs| == |members| && DistinctNames(members)
      && forall i :: 0 <= i < |members| ==> DecodedMember(heap, heap[v.id].pairs[i], members)
    case _ => Holds(heap, v, AsLua(j))
  }

  /** The pair decodes one of the members. */
  ghost predicate DecodedMember(heap: Heap, pair: Pair, members: seq<Member>)
    decreases members
  {
    exists k :: 0 <= k < |members| && pair.0 == Text(members[k].name) && Decoded(heap, pair.1, members[k].value)
  }

  /** What decoding gives is among the values so described. */
  lemma {:induction false} HeldIsDecoded(heap: Heap, v: Value, j: Json)
    requires Proper(j) && Holds(heap, v, AsLua(j))
    ensures Decoded(heap, v, j)
    decreases j
  {
    match j
    case JArray(items) =>
      forall i | 0 <= i < |items| ensures Decoded(heap, Get(heap[v.id].pairs, Int(i + 1)), items[i]) {
        assert AsLua(j).items[i] == AsLua(items[i]);
        HeldIsDecoded(heap, Get(heap[v.id].pairs, Int(i + 1)), items[i]);
      }
    case JObject(members) =>
      forall i | 0 <= i < |members|
        ensures DecodedMember(heap, heap[v.id].pairs[i], members)
      {
        assert AsLua(j).members[i].value == AsLua(members[i].value);
        HeldIsDecoded(heap, heap[v.id].pairs[i].1, members[i].value);
        assert heap[v.id].pairs[i].0 == Text(members[i].name);
      }
    case _ =>
  }

  /** Equal up to the order of members. */
  ghost predicate Same(a: Json, b: Json)
    decreases a
  {
    match a
    case JArray(items) =>
      b.JArray? && |b.items| == |items| && forall i :: 0 <= i < |items| ==> Same(items[i], b.items[i])
    case JObject(members) =>
      b.JObject? && |b.members| == |members| && DistinctNames(members) && DistinctNames(b.members)
      && forall i :: 0 <= i < |members| ==> Matched(members, b.members[i])
    case _ => a == b
  }

  ghost predicate Matched(members: seq<Member>, m: Member)
    decreases members
  {
    exists k :: 0 <= k < |members| && members[k].name == m.name && Same(members[k].value, m.value)
  }

  ghost function Which(heap: Heap, pair: Pair, members: seq<Member>): (k: nat)
    requires DecodedMember(heap, pair, members)
    ensures k < |members| && pair.0 == Text(members[k].name) && Decoded(heap, pair.1, members[k].value)
  {
    var k :| 0 <= k < |members| && pair.0 == Text(members[k].name) && Decoded(heap, pair.1, members[k].value);
    k
  }

  /** The document with its members in traversal order. */
  ghost function InOrder(heap: Heap, v: Value, j: Json): Json
    requires Decoded(heap, v, j)
    decreases j
  {
    match j
    case JArray(items) =>
      JArray(seq(|items|, i requires 0 <= i < |items| => InOrder(heap, Get(heap[v.id].pairs, Int(i + 1)), items[i])))
    case JObject(members) =>
      JObject(seq(|members|, i requires 0 <= i < |members| =>
        var k := Which(heap, heap[v.id].pairs[i], members);
        Member(members[k].name, InOrder(heap, heap[v.id].pairs[i].1, members[k].value))))
    case _ => AsLua(j)
  }

  lemma {:induction false} InOrderHolds(heap: Heap, v: Value, j: Json)
    requires Closed(heap) && Decoded(heap, v, j)
    ensures Holds(heap, v, InOrder(heap, v, j)) && Same(AsLua(j), InOrder(heap, v, j))
    decreases j, 1
  {
    if j.JArray? {
      ArrayInOrderHolds(heap, v, j);
    } else if j.JObject? {
      ObjectInOrderHolds(heap, v, j);
    }
  }

  lemma {:induction false} ArrayInOrderHolds(heap: Heap, v: Value, j: Json)
    requires Closed(heap) && Decoded(heap, v, j) && j.JArray?
    ensures Holds(heap, v, InOrder(heap, v, j)) && Same(AsLua(j), InOrder(heap, v, j))
    decreases j, 0
  {
    var ordered := InOrder(heap, v, j).items;
    forall i | 0 <= i < |j.items|
      ensures Holds(heap, Get(heap[v.id].pairs, Int(i + 1)), ordered[i]) && Same(AsLua(j).items[i], ordered[i])
    {
      InOrderHolds(heap, Get(heap[v.id].pairs, Int(i + 1)), j.items[i]);
    }
  }

  lemma {:induction false} ObjectInOrderHolds(heap: Heap, v: Value, j: Json)
    requires Closed(heap) && Decoded(heap, v, j) && j.JObject?
    ensures Holds(heap, v, InOrder(heap, v, j)) && Same(AsLua(j), InOrder(heap, v, j))
    decreases j, 0
  {
    var members, pairs, ordered := j.members, heap[v.id].pairs, InOrder(heap, v, j).members;
    forall i | 0 <= i < |members|
      ensures pairs[i].0 == Text(ordered[i].name) && Holds(heap, pairs[i].1, ordered[i].value)
      ensures Matched(AsLua(j).members, ordered[i])
    {
      var k := Which(heap, pairs[i], members);
      InOrderHolds(heap, pairs[i].1, members[k].value);
      var held := AsLua(j).members[k];
      assert held.name == ordered[i].name && Same(held.value, ordered[i].value);
    }
    NamesDiffer(heap[v.id], ordered);
  }

  lemma NamesDiffer(t: LuaTable, members: seq<Member>)
    requires WellFormed(t) && |t.pairs| == |members|
    requires forall i :: 0 <= i < |members| ==> t.pairs[i].0 == Text(members[i].name)
    ensures DistinctNames(members)
  {
    forall i, k | 0 <= i < k < |members| ensures members[i].name != members[k].name {
      assert t.pairs[i].0 != t.pairs[k].0;
    }
  }

  /** Whatever order the tables traverse their members in, a decoded document is
      encoded, and reads back as the same document up to that order. */
  lemma DecodedEncodesInAnyOrder(heap: Heap, v: Value, j: Json)
    requires Closed(heap) && Points(heap, v) && Decoded(heap, v, j)
    ensures Encode(heap, [], v).Some?
    ensures exists back :: Read(Encode(heap, [], v).value) == Some((back, [])) && Same(AsLua(j), back)
  {
    var back := InOrder(heap, v, j);
    InOrderHolds(heap, v, j);
    EncodeHeld(heap, [], [], v, back);
    ReadTokens(back, []);
    assert Tokens(back) + [] == Tokens(back);
  }
}
