/**
 JSON documents as trees, decoded into Lua tables and encoded again. A decoded
 array carries the array metatable, a decoded `null` is the null light userdata,
 and a table may traverse its members in any order.
 */
module JsonRoundTrip {
  import opened Basics
  import opened LuaHeap
  import opened JsonTokens
  import opened Encoding

  /** The integers a parser keeps as integers; a literal outside them is read as a float. */
  type JsonInt = n: int | I64_MIN <= n <= U64_MAX

  datatype Json =
    | JNull
    | JBool(b: bool)
    | JInt(n: JsonInt)
    | JFloat(bits: nat)
    | JString(s: Bytes)
    | JArray(items: seq<Json>)
    | JObject(members: seq<Member>)

  datatype Member = Member(name: Bytes, value: Json)

  // ------------------------------------------------------------ documents

  function Tokens(j: Json): seq<Token>
    decreases j, 0
  {
    match j
    case JNull => [Atom(Null)]
    case JBool(b) => [Atom(Bool(b))]
    case JInt(n) => [Atom(Int(n))]
    case JFloat(bits) => [Atom(Float(bits, true))]
    case JString(s) => [Atom(Text(s))]
    case JArray(items) => Enclosed(OpenSeq, ItemTokens(items), CloseSeq)
    case JObject(members) => Enclosed(OpenMap, MemberTokens(members), CloseMap)
  }

  function ItemTokens(items: seq<Json>): seq<Token> {
    if items == [] then [] else Tokens(items[0]) + ItemTokens(items[1..])
  }

  function MemberTokens(members: seq<Member>): seq<Token> {
    if members == [] then []
    else [Name(Text(members[0].name))] + Tokens(members[0].value) + MemberTokens(members[1..])
  }

  /** Reads one value off the front. */
  function Read(ts: seq<Token>): (r: Option<(Json, seq<Token>)>)
    ensures r.Some? ==> |r.value.1| < |ts|
    decreases |ts|, 0
  {
    if ts == [] then None
    else
      match ts[0]
      case Atom(Nil) | Atom(Null) => Some((JNull, ts[1..]))
      case Atom(Bool(b)) => Some((JBool(b), ts[1..]))
      case Atom(Int(n)) => if I64_MIN <= n <= U64_MAX then Some((JInt(n), ts[1..])) else None
      case Atom(Float(bits, finite)) => Some((if finite then JFloat(bits) else JNull, ts[1..]))
      case Atom(Text(s)) => Some((JString(s), ts[1..]))
      case OpenSeq =>
        (match ReadItems(ts[1..])
         case None => None
         case Some((items, rest)) => Some((JArray(items), rest)))
      case OpenMap =>
        (match ReadMembers(ts[1..])
         case None => None
         case Some((members, rest)) => Some((JObject(members), rest)))
      case _ => None
  }

  function ReadItems(ts: seq<Token>): (r: Option<(seq<Json>, seq<Token>)>)
    ensures r.Some? ==> |r.value.1| < |ts|
    decreases |ts|, 1
  {
    if ts == [] then None
    else if ts[0] == CloseSeq then Some(([], ts[1..]))
    else
      match Read(ts)
      case None => None
      case Some((j, rest)) =>
        match ReadItems(rest)
        case None => None
        case Some((items, rest')) => Some(([j] + items, rest'))
  }

  function ReadMembers(ts: seq<Token>): (r: Option<(seq<Member>, seq<Token>)>)
    ensures r.Some? ==> |r.value.1| < |ts|
    decreases |ts|, 1
  {
    if ts == [] then None
    else if ts[0] == CloseMap then Some(([], ts[1..]))
    else if !(ts[0].Name? && ts[0].key.Text?) then None
    else
      match Read(ts[1..])
      case None => None
      case Some((j, rest)) =>
        match ReadMembers(rest)
        case None => None
        case Some((members, rest')) => Some(([Member(ts[0].key.s, j)] + members, rest'))
  }

  /** Reading what was written gives the document back. */
  lemma {:induction false} ReadTokens(j: Json, rest: seq<Token>)
    ensures Read(Tokens(j) + rest) == Some((j, rest))
    decreases j, 0
  {
    if j.JArray? {
      ReadItemTokens(j.items, rest);
      ReadSeq(ItemTokens(j.items) + ([CloseSeq] + rest));
      assert Tokens(j) + rest == [OpenSeq] + (ItemTokens(j.items) + ([CloseSeq] + rest));
    } else if j.JObject? {
      ReadMemberTokens(j.members, rest);
      ReadMap(MemberTokens(j.members) + ([CloseMap] + rest));
      assert Tokens(j) + rest == [OpenMap] + (MemberTokens(j.members) + ([CloseMap] + rest));
    } else {
      ReadLeaf(j, rest);
    }
  }

  lemma ReadLeaf(j: Json, rest: seq<Token>)
    requires !j.JArray? && !j.JObject?
    ensures Read(Tokens(j) + rest) == Some((j, rest))
  {
    assert (Tokens(j) + rest)[1..] == rest;
  }

  lemma ReadSeq(body: seq<Token>)
    ensures Read([OpenSeq] + body) == match ReadItems(body)
      case None => None
      case Some((items, rest)) => Some((JArray(items), rest))
  {
    assert ([OpenSeq] + body)[1..] == body;
  }

  lemma ReadMap(body: seq<Token>)
    ensures Read([OpenMap] + body) == match ReadMembers(body)
      case None => None
      case Some((members, rest)) => Some((JObject(members), rest))
  {
    assert ([OpenMap] + body)[1..] == body;
  }

  lemma {:induction false} ReadItemTokens(items: seq<Json>, rest: seq<Token>)
    ensures ReadItems(ItemTokens(items) + ([CloseSeq] + rest)) == Some((items, rest))
    decreases items, 1
  {
    if items == [] {
      assert ItemTokens(items) + ([CloseSeq] + rest) == [CloseSeq] + rest;
    } else {
      var tail := ItemTokens(items[1..]) + ([CloseSeq] + rest);
      assert ItemTokens(items) + ([CloseSeq] + rest) == Tokens(items[0]) + tail;
      StartsAValue(items[0], tail);
      ReadTokens(items[0], tail);
      ReadItemTokens(items[1..], rest);
      assert [items[0]] + items[1..] == items;
    }
  }

  lemma {:induction false} ReadMemberTokens(members: seq<Member>, rest: seq<Token>)
    ensures ReadMembers(MemberTokens(members) + ([CloseMap] + rest)) == Some((members, rest))
    decreases members, 1
  {
    if members == [] {
      assert MemberTokens(members) + ([CloseMap] + rest) == [CloseMap] + rest;
    } else {
      var tail := MemberTokens(members[1..]) + ([CloseMap] + rest);
      ReadTokens(members[0].value, tail);
      ReadMember(members[0], tail);
      ReadMemberTokens(members[1..], rest);
      MembersStep(members, [CloseMap] + rest);
      assert [members[0]] + members[1..] == members;
    }
  }

  lemma MembersStep(members: seq<Member>, after: seq<Token>)
    requires members != []
    ensures MemberTokens(members) + after ==
      [Name(Text(members[0].name))] + (Tokens(members[0].value) + (MemberTokens(members[1..]) + after))
  {
  }

  lemma ReadMember(m: Member, tail: seq<Token>)
    requires Read(Tokens(m.value) + tail) == Some((m.value, tail))
    ensures ReadMembers([Name(Text(m.name))] + (Tokens(m.value) + tail)) ==
      match ReadMembers(tail)
      case None => None
      case Some((members, rest)) => Some(([m] + members, rest))
  {
    assert ([Name(Text(m.name))] + (Tokens(m.value) + tail))[1..] == Tokens(m.value) + tail;
  }

  lemma StartsAValue(j: Json, rest: seq<Token>)
    ensures |Tokens(j)| > 0 && (Tokens(j) + rest)[0] == Tokens(j)[0]
    ensures !Tokens(j)[0].CloseSeq? && !Tokens(j)[0].CloseMap?
  {
  }

  // --------------------------------------------------------- decoded values

  /** `v` is what decoding `j` gives, with members listed as the table traverses them. */
  ghost predicate Holds(heap: Heap, v: Value, j: Json)
    decreases j
  {
    match j
    case JNull => v == Null
    case JBool(b) => v == Bool(b)
    case JInt(n) => v == Int(n)
    case JFloat(bits) => v == Float(bits, true)
    case JString(s) => v == Text(s)
    case JArray(items) =>
      v.Table? && v.id in heap && heap[v.id].arrayMarked && ArrayPairs(heap[v.id].pairs, |items|)
      && forall i :: 0 <= i < |items| ==> Holds(heap, Get(heap[v.id].pairs, Int(i + 1)), items[i])
    case JObject(members) =>
      v.Table? && v.id in heap && !heap[v.id].arrayMarked && |heap[v.id].pairs| == |members|
      && forall i :: 0 <= i < |members| ==>
           heap[v.id].pairs[i].0 == Text(members[i].name) && Holds(heap, heap[v.id].pairs[i].1, members[i].value)
  }

  ghost predicate ArrayPairs(pairs: seq<Pair>, n: nat) {
    |pairs| == n && OnlyIndexes(pairs) && Highest(pairs) == n
  }

  function Size(j: Json): nat
    decreases j, 0
  {
    match j
    case JArray(items) => 1 + SizeOfItems(items)
    case JObject(members) => 1 + SizeOfMembers(members)
    case _ => 1
  }

  function SizeOfItems(items: seq<Json>): nat {
    if items == [] then 0 else Size(items[0]) + SizeOfItems(items[1..])
  }

  function SizeOfMembers(members: seq<Member>): nat {
    if members == [] then 0 else Size(members[0].value) + SizeOfMembers(members[1..])
  }

  lemma {:induction false} ItemIsSmaller(items: seq<Json>, i: nat)
    requires i < |items|
    ensures Size(items[i]) <= SizeOfItems(items)
  {
    if i > 0 {
      ItemIsSmaller(items[1..], i - 1);
    }
  }

  lemma {:induction false} MemberIsSmaller(members: seq<Member>, i: nat)
    requires i < |members|
    ensures Size(members[i].value) <= SizeOfMembers(members)
  {
    if i > 0 {
      MemberIsSmaller(members[1..], i - 1);
    }
  }

  /** A value is the decoding of one document only. */
  lemma {:induction false} HoldsOne(heap: Heap, v: Value, a: Json, b: Json)
    requires Holds(heap, v, a) && Holds(heap, v, b)
    ensures a == b
    decreases a
  {
    match a
    case JArray(items) =>
      forall i | 0 <= i < |items| ensures items[i] == b.items[i] {
        HoldsOne(heap, Get(heap[v.id].pairs, Int(i + 1)), items[i], b.items[i]);
      }
    case JObject(members) =>
      forall i | 0 <= i < |members| ensures members[i] == b.members[i] {
        HoldsOne(heap, heap[v.id].pairs[i].1, members[i].value, b.members[i].value);
      }
    case _ =>
  }

  /** The tables on the way down each hold a document larger than this one. */
  ghost predicate Above(heap: Heap, path: Path, docs: seq<Json>, size: nat) {
    |path| == |docs| && forall i :: 0 <= i < |path| ==> Holds(heap, Table(path[i]), docs[i]) && Size(docs[i]) > size
  }

  lemma NotOnPath(heap: Heap, path: Path, docs: seq<Json>, v: Value, j: Json)
    requires Above(heap, path, docs, Size(j)) && Holds(heap, v, j) && v.Table?
    ensures v.id !in path
  {
    if v.id in path {
      var i :| 0 <= i < |path| && path[i] == v.id;
      HoldsOne(heap, v, j, docs[i]);
    }
  }

  /** Encoding a decoded document writes that document: no cycle is met, no table is
      mixed, and a list is written whole. */
  lemma {:induction false} EncodeHeld(heap: Heap, path: Path, docs: seq<Json>, v: Value, j: Json)
    requires Closed(heap) && Points(heap, v) && Holds(heap, v, j) && Above(heap, path, docs, Size(j))
    ensures Encode(heap, path, v) == Some(Tokens(j))
    decreases j, 0, 3
  {
    if j.JArray? || j.JObject? {
      EncodeHeldTable(heap, path, docs, v, j);
      NotOnPath(heap, path, docs, v, j);
    }
  }

  lemma {:induction false} EncodeHeldTable(heap: Heap, path: Path, docs: seq<Json>, v: Value, j: Json)
    requires Closed(heap) && Points(heap, v) && Holds(heap, v, j) && Above(heap, path, docs, Size(j))
    requires j.JArray? || j.JObject?
    ensures EncodeTable(heap, path + [v.id], heap[v.id]) == Some(Tokens(j))
    decreases j, 0, 2
  {
    AboveMore(heap, path, docs, v, j);
    if j.JArray? {
      EncodeHeldArray(heap, path + [v.id], docs + [j], heap[v.id], j);
    } else {
      EncodeHeldObject(heap, path + [v.id], docs + [j], heap[v.id], j);
    }
  }

  lemma AboveMore(heap: Heap, path: Path, docs: seq<Json>, v: Value, j: Json)
    requires Above(heap, path, docs, Size(j)) && Holds(heap, v, j) && v.Table?
    ensures Above(heap, path + [v.id], docs + [j], Size(j) - 1)
  {
  }

  lemma {:induction false} EncodeHeldArray(heap: Heap, path: Path, docs: seq<Json>, t: LuaTable, j: Json)
    requires Closed(heap) && WellFormed(t) && AllPairsPoint(heap, t.pairs)
    requires j.JArray? && t.arrayMarked && ArrayPairs(t.pairs, |j.items|)
    requires forall i :: 0 <= i < |j.items| ==> Holds(heap, Get(t.pairs, Int(i + 1)), j.items[i])
    requires Above(heap, path, docs, Size(j) - 1)
    ensures EncodeTable(heap, path, t) == Some(Tokens(j))
    decreases j, 0, 1
  {
    var items := Items(t.pairs);
    ItemAt(t.pairs);
    ItemsPoint(heap, t);
    if |t.pairs| > 0 {
      Pigeonhole(t.pairs);
    }
    if t.border > 0 {
      forall i | 0 <= i < |items| ensures Holds(heap, items[i], j.items[i]) {
      }
      EncodeHeldItems(heap, path, docs, items, j.items);
      assert t.pairs != [];
    }
  }

  lemma {:induction false} EncodeHeldItems(heap: Heap, path: Path, docs: seq<Json>, items: seq<Value>, js: seq<Json>)
    requires Closed(heap) && AllPoint(heap, items) && |items| == |js|
    requires forall i :: 0 <= i < |items| ==> Holds(heap, items[i], js[i])
    requires Above(heap, path, docs, SizeOfItems(js))
    ensures EncodeItems(heap, path, items) == Some(ItemTokens(js))
    decreases js, 0
  {
    if items != [] {
      EncodeHeld(heap, path, docs, items[0], js[0]);
      EncodeHeldItems(heap, path, docs, items[1..], js[1..]);
    }
  }

  lemma {:induction false} EncodeHeldObject(heap: Heap, path: Path, docs: seq<Json>, t: LuaTable, j: Json)
    requires Closed(heap) && WellFormed(t) && AllPairsPoint(heap, t.pairs)
    requires j.JObject? && !t.arrayMarked && |t.pairs| == |j.members|
    requires forall i :: 0 <= i < |j.members| ==>
      t.pairs[i].0 == Text(j.members[i].name) && Holds(heap, t.pairs[i].1, j.members[i].value)
    requires Above(heap, path, docs, Size(j) - 1)
    ensures EncodeTable(heap, path, t) == Some(Tokens(j))
    decreases j, 0, 1
  {
    assert t.border == 0;
    EncodeHeldMembers(heap, path, docs, t.pairs, j.members);
  }

  lemma {:induction false} EncodeHeldMembers(heap: Heap, path: Path, docs: seq<Json>, pairs: seq<Pair>, members: seq<Member>)
    requires Closed(heap) && AllPairsPoint(heap, pairs) && |pairs| == |members|
    requires forall i :: 0 <= i < |members| ==>
      pairs[i].0 == Text(members[i].name) && Holds(heap, pairs[i].1, members[i].value)
    requires Above(heap, path, docs, SizeOfMembers(members))
    ensures EncodePairs(heap, path, pairs) == Some(MemberTokens(members))
    decreases members, 0
  {
    if pairs != [] {
      EncodeHeld(heap, path, docs, pairs[0].1, members[0].value);
      EncodeHeldMembers(heap, path, docs, pairs[1..], members[1..]);
    }
  }
}
