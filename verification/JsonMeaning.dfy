/**
 What an encoding says: the document read back from the tokens of any Lua value.
 A member's name is kept as the key it was written from.
 */
module JsonMeaning {
  import opened Basics
  import opened LuaHeap
  import opened JsonTokens
  import opened Encoding
  import opened JsonRoundTrip
  import opened Bounded

  datatype Doc =
    | DNull
    | DBool(b: bool)
    | DInt(n: int)
    | DFloat(bits: nat)
    | DText(s: Bytes)
    | DList(items: seq<Doc>)
    | DMap(members: seq<(Value, Doc)>)

  // ------------------------------------------------------------- reading

  function ReadLeaf(v: Value): Option<Doc> {
    match v
    case Nil | Null => Some(DNull)
    case Bool(b) => Some(DBool(b))
    case Int(n) => Some(DInt(n))
    case Float(bits, finite) => Some(if finite then DFloat(bits) else DNull)
    case Text(s) => Some(DText(s))
    case _ => None
  }

  function Numbers(s: Bytes): seq<Doc> {
    seq(|s|, i requires 0 <= i < |s| => DInt(s[i] as int))
  }

  /** Reads one value off the front. */
  function ReadDoc(ts: seq<Token>): (r: Option<(Doc, seq<Token>)>)
    ensures r.Some? ==> |r.value.1| < |ts|
    decreases |ts|, 0
  {
    if ts == [] then None
    else
      match ts[0]
      case Atom(v) => if ReadLeaf(v).Some? then Some((ReadLeaf(v).value, ts[1..])) else None
      case Octets(s) => Some((DList(Numbers(s)), ts[1..]))
      case OpenSeq =>
        (match ReadList(ts[1..])
         case None => None
         case Some((items, rest)) => Some((DList(items), rest)))
      case OpenMap =>
        (match ReadEntries(ts[1..])
         case None => None
         case Some((members, rest)) => Some((DMap(members), rest)))
      case _ => None
  }

  function ReadList(ts: seq<Token>): (r: Option<(seq<Doc>, seq<Token>)>)
    ensures r.Some? ==> |r.value.1| < |ts|
    decreases |ts|, 1
  {
    if ts == [] then None
    else if ts[0] == CloseSeq then Some(([], ts[1..]))
    else
      match ReadDoc(ts)
      case None => None
      case Some((d, rest)) =>
        match ReadList(rest)
        case None => None
        case Some((items, rest')) => Some(([d] + items, rest'))
  }

  function ReadEntries(ts: seq<Token>): (r: Option<(seq<(Value, Doc)>, seq<Token>)>)
    ensures r.Some? ==> |r.value.1| < |ts|
    decreases |ts|, 1
  {
    if ts == [] then None
    else if ts[0] == CloseMap then Some(([], ts[1..]))
    else if !ts[0].Name? then None
    else
      match ReadDoc(ts[1..])
      case None => None
      case Some((d, rest)) =>
        match ReadEntries(rest)
        case None => None
        case Some((members, rest')) => Some(([(ts[0].key, d)] + members, rest'))
  }

  /** What follows a value does not change how it is read. */
  lemma {:induction false} ReadExtends(ts: seq<Token>, more: seq<Token>)
    requires ReadDoc(ts).Some?
    ensures ReadDoc(ts + more) == Some((ReadDoc(ts).value.0, ReadDoc(ts).value.1 + more))
    decreases |ts|, 0
  {
    assert (ts + more)[0] == ts[0] && (ts + more)[1..] == ts[1..] + more;
    if ts[0].OpenSeq? {
      ListExtends(ts[1..], more);
    } else if ts[0].OpenMap? {
      EntriesExtend(ts[1..], more);
    }
  }

  lemma {:induction false} ListExtends(ts: seq<Token>, more: seq<Token>)
    requires ReadList(ts).Some?
    ensures ReadList(ts + more) == Some((ReadList(ts).value.0, ReadList(ts).value.1 + more))
    decreases |ts|, 1
  {
    assert (ts + more)[0] == ts[0] && (ts + more)[1..] == ts[1..] + more;
    if ts[0] != CloseSeq {
      ReadExtends(ts, more);
      ListExtends(ReadDoc(ts).value.1, more);
    }
  }

  lemma {:induction false} EntriesExtend(ts: seq<Token>, more: seq<Token>)
    requires ReadEntries(ts).Some?
    ensures ReadEntries(ts + more) == Some((ReadEntries(ts).value.0, ReadEntries(ts).value.1 + more))
    decreases |ts|, 1
  {
    assert (ts + more)[0] == ts[0] && (ts + more)[1..] == ts[1..] + more;
    if ts[0] != CloseMap {
      ReadExtends(ts[1..], more);
      EntriesExtend(ReadDoc(ts[1..]).value.1, more);
    }
  }

  /** A document that a parser gives, with its names as keys. */
  function DocOf(j: Json): Doc
    decreases j, 0
  {
    match j
    case JNull => DNull
    case JBool(b) => DBool(b)
    case JInt(n) => DInt(n)
    case JFloat(bits) => DFloat(bits)
    case JString(s) => DText(s)
    case JArray(items) => DList(seq(|items|, i requires 0 <= i < |items| => DocOf(items[i])))
    case JObject(members) =>
      DMap(seq(|members|, i requires 0 <= i < |members| => (Text(members[i].name), DocOf(members[i].value))))
  }

  /** Both readers agree wherever the parser's documents are read. */
  lemma {:induction false} ReadersAgree(ts: seq<Token>)
    requires Read(ts).Some?
    ensures ReadDoc(ts) == Some((DocOf(Read(ts).value.0), Read(ts).value.1))
    decreases |ts|, 0
  {
    if ts[0].OpenSeq? {
      ListsAgree(ts[1..]);
    } else if ts[0].OpenMap? {
      EntriesAgree(ts[1..]);
    }
  }

  lemma {:induction false} ListsAgree(ts: seq<Token>)
    requires ReadItems(ts).Some?
    ensures ReadList(ts).Some? && ReadList(ts).value.1 == ReadItems(ts).value.1
    ensures DList(ReadList(ts).value.0) == DocOf(JArray(ReadItems(ts).value.0))
    decreases |ts|, 1
  {
    if ts[0] != CloseSeq {
      ReadersAgree(ts);
      ListsAgree(Read(ts).value.1);
    }
  }

  lemma {:induction false} EntriesAgree(ts: seq<Token>)
    requires ReadMembers(ts).Some?
    ensures ReadEntries(ts).Some? && ReadEntries(ts).value.1 == ReadMembers(ts).value.1
    ensures DMap(ReadEntries(ts).value.0) == DocOf(JObject(ReadMembers(ts).value.0))
    decreases |ts|, 1
  {
    if ts[0] != CloseMap {
      ReadersAgree(ts[1..]);
      EntriesAgree(Read(ts[1..]).value.1);
    }
  }

  // ----------------------------------------------- what an encoding reads as

  /** The tokens written are exactly one document. */
  ghost predicate ReadsAs(out: Option<seq<Token>>, d: Doc) {
    out.Some? && ReadDoc(out.value) == Some((d, []))
  }

  /** Every value without children, and what each is written as. */
  lemma LeafReads(heap: Heap, path: Path, v: Value)
    requires Closed(heap) && Points(heap, v) && !v.Table?
    ensures v.Nil? || v.Null? ==> ReadsAs(Encode(heap, path, v), DNull)
    ensures v.Bool? ==> ReadsAs(Encode(heap, path, v), DBool(v.b))
    ensures v.Int? ==> ReadsAs(Encode(heap, path, v), DInt(v.n))
    ensures v.Float? ==> ReadsAs(Encode(heap, path, v), if v.finite then DFloat(v.bits) else DNull)
    ensures v.Text? ==> ReadsAs(Encode(heap, path, v), DText(v.s))
    ensures v.Blob? ==> ReadsAs(Encode(heap, path, v), DList(Numbers(v.s)))
    ensures v.Opaque? ==> Encode(heap, path, v) == None
  {
    if v.Blob? {
      assert [Octets(v.s)][1..] == [];
    } else {
      assert [Atom(v)][1..] == [];
    }
  }

  /** Whatever is encoded is one document. */
  lemma {:induction false} EncodedReads(heap: Heap, path: Path, v: Value) returns (d: Doc)
    requires Closed(heap) && Points(heap, v) && Encode(heap, path, v).Some?
    ensures ReadsAs(Encode(heap, path, v), d)
    decreases Unseen(heap, path), 0, 0
  {
    if v.Table? {
      UnseenShrinks(heap, path, v.id);
      d := TableReads(heap, path + [v.id], heap[v.id]);
    } else {
      LeafReads(heap, path, v);
      d := ReadDoc(Encode(heap, path, v).value).value.0;
    }
  }

  lemma {:induction false} TableReads(heap: Heap, path: Path, t: LuaTable) returns (d: Doc)
    requires Closed(heap) && WellFormed(t) && AllPairsPoint(heap, t.pairs) && EncodeTable(heap, path, t).Some?
    ensures ReadsAs(EncodeTable(heap, path, t), d)
    decreases Unseen(heap, path), 2, 0
  {
    if t.border == 0 && t.pairs == [] {
      EmptyReads(heap, path, t);
      d := if t.arrayMarked then DList([]) else DMap([]);
    } else if t.border == 0 || Highest(t.pairs) > 2 * |t.pairs| {
      var members := PairsRead(heap, path, t.pairs);
      MapEnclosed(EncodePairs(heap, path, t.pairs).value, members);
      d := DMap(members);
    } else {
      ItemsPoint(heap, t);
      var items := ItemsRead(heap, path, Items(t.pairs));
      ListEnclosed(EncodeItems(heap, path, Items(t.pairs)).value, items);
      d := DList(items);
    }
  }

  lemma EmptyReads(heap: Heap, path: Path, t: LuaTable)
    requires Closed(heap) && WellFormed(t) && t.pairs == []
    ensures ReadsAs(EncodeTable(heap, path, t), if t.arrayMarked then DList([]) else DMap([]))
  {
    assert t.border == 0;
    assert Enclosed(OpenSeq, [], CloseSeq)[1..] == [CloseSeq];
    assert Enclosed(OpenMap, [], CloseMap)[1..] == [CloseMap];
  }

  lemma ListEnclosed(body: seq<Token>, items: seq<Doc>)
    requires ReadList(body + [CloseSeq]) == Some((items, []))
    ensures ReadDoc(Enclosed(OpenSeq, body, CloseSeq)) == Some((DList(items), []))
  {
    OpenReads(OpenSeq, body + [CloseSeq]);
    assert Enclosed(OpenSeq, body, CloseSeq) == [OpenSeq] + (body + [CloseSeq]);
  }

  lemma MapEnclosed(body: seq<Token>, members: seq<(Value, Doc)>)
    requires ReadEntries(body + [CloseMap]) == Some((members, []))
    ensures ReadDoc(Enclosed(OpenMap, body, CloseMap)) == Some((DMap(members), []))
  {
    OpenReads(OpenMap, body + [CloseMap]);
    assert Enclosed(OpenMap, body, CloseMap) == [OpenMap] + (body + [CloseMap]);
  }

  lemma OpenReads(open: Token, rest: seq<Token>)
    requires open.OpenSeq? || open.OpenMap?
    ensures open.OpenSeq? && ReadList(rest).Some? ==>
      ReadDoc([open] + rest) == Some((DList(ReadList(rest).value.0), ReadList(rest).value.1))
    ensures open.OpenMap? && ReadEntries(rest).Some? ==>
      ReadDoc([open] + rest) == Some((DMap(ReadEntries(rest).value.0), ReadEntries(rest).value.1))
  {
    assert ([open] + rest)[1..] == rest;
  }

  lemma ReadsAhead(ts: seq<Token>, d: Doc, tail: seq<Token>)
    requires ReadDoc(ts) == Some((d, []))
    ensures ReadDoc(ts + tail) == Some((d, tail)) && (ts + tail)[0] == ts[0] && !ts[0].CloseSeq?
  {
    ReadExtends(ts, tail);
    assert [] + tail == tail;
  }

  /** A value ahead of a list that is read adds itself to it. */
  lemma ListStep(body: seq<Token>, d: Doc, tail: seq<Token>, items: seq<Doc>)
    requires ReadDoc(body) == Some((d, tail)) && !body[0].CloseSeq? && ReadList(tail) == Some((items, []))
    ensures ReadList(body) == Some(([d] + items, []))
  {
  }

  lemma EntryStep(key: Value, body: seq<Token>, d: Doc, tail: seq<Token>, members: seq<(Value, Doc)>)
    requires ReadDoc(body) == Some((d, tail)) && ReadEntries(tail) == Some((members, []))
    ensures ReadEntries([Name(key)] + body) == Some(([(key, d)] + members, []))
  {
    assert ([Name(key)] + body)[1..] == body;
  }

  lemma {:induction false} ItemsRead(heap: Heap, path: Path, items: seq<Value>) returns (ds: seq<Doc>)
    requires Closed(heap) && AllPoint(heap, items) && EncodeItems(heap, path, items).Some?
    ensures ReadList(EncodeItems(heap, path, items).value + [CloseSeq]) == Some((ds, [])) && |ds| == |items|
    ensures forall k :: 0 <= k < |items| ==> ReadsAs(Encode(heap, path, items[k]), ds[k])
    decreases Unseen(heap, path), 1, |items|
  {
    if items == [] {
      ds := [];
      assert [] + [CloseSeq] == [CloseSeq];
    } else {
      var d := EncodedReads(heap, path, items[0]);
      var rest := ItemsRead(heap, path, items[1..]);
      var ts, tail := Encode(heap, path, items[0]).value, EncodeItems(heap, path, items[1..]).value;
      ReadsAhead(ts, d, tail + [CloseSeq]);
      ListStep(ts + (tail + [CloseSeq]), d, tail + [CloseSeq], rest);
      assert ts + (tail + [CloseSeq]) == (ts + tail) + [CloseSeq];
      ds := [d] + rest;
    }
  }

  lemma {:induction false} PairsRead(heap: Heap, path: Path, pairs: seq<Pair>) returns (ms: seq<(Value, Doc)>)
    requires Closed(heap) && AllPairsPoint(heap, pairs) && EncodePairs(heap, path, pairs).Some?
    ensures ReadEntries(EncodePairs(heap, path, pairs).value + [CloseMap]) == Some((ms, [])) && |ms| == |pairs|
    ensures forall k :: 0 <= k < |pairs| ==>
      ms[k].0 == pairs[k].0 && ReadsAs(Encode(heap, path, pairs[k].1), ms[k].1)
    decreases Unseen(heap, path), 1, |pairs|
  {
    if pairs == [] {
      ms := [];
      assert [] + [CloseMap] == [CloseMap];
    } else {
      var d := EncodedReads(heap, path, pairs[0].1);
      var rest := PairsRead(heap, path, pairs[1..]);
      var ts, tail := Encode(heap, path, pairs[0].1).value, EncodePairs(heap, path, pairs[1..]).value;
      ReadsAhead(ts, d, tail + [CloseMap]);
      EntryStep(pairs[0].0, ts + (tail + [CloseMap]), d, tail + [CloseMap], rest);
      assert [Name(pairs[0].0)] + (ts + (tail + [CloseMap])) == ([Name(pairs[0].0)] + ts + tail) + [CloseMap];
      ms := [(pairs[0].0, d)] + rest;
    }
  }

  // ------------------------------------------------- the meaning of a table

  /** A table with a list part whose highest index is at most twice its count is
      an array up to that index: null where it has no key, and the value's own
      document at every key. */
  lemma ListReads(heap: Heap, path: Path, t: LuaTable, highest: nat) returns (ds: seq<Doc>)
    requires Closed(heap) && WellFormed(t) && AllPairsPoint(heap, t.pairs) && EncodeTable(heap, path, t).Some?
    requires t.border > 0 && HasKey(t.pairs, Int(highest)) && highest <= 2 * |t.pairs|
    requires forall i :: 0 <= i < |t.pairs| && t.pairs[i].0.Int? ==> t.pairs[i].0.n <= highest
    ensures ReadsAs(EncodeTable(heap, path, t), DList(ds)) && |ds| == highest
    ensures forall i :: 0 <= i < |t.pairs| ==> t.pairs[i].0.Int? && 1 <= t.pairs[i].0.n <= highest
    ensures forall i :: 0 <= i < |t.pairs| ==> ReadsAs(Encode(heap, path, t.pairs[i].1), ds[t.pairs[i].0.n - 1])
    ensures forall k :: 0 <= k < highest && !HasKey(t.pairs, Int(k + 1)) ==> ds[k] == DNull
  {
    HighestIsAKey(t.pairs);
    ItemsPoint(heap, t);
    NoEntryLost(t);
    ds := ItemsRead(heap, path, Items(t.pairs));
    ListEnclosed(EncodeItems(heap, path, Items(t.pairs)).value, ds);
    forall k | 0 <= k < highest && !HasKey(t.pairs, Int(k + 1)) ensures ds[k] == DNull {
      assert Items(t.pairs)[k] == Nil;
      LeafReads(heap, path, Nil);
    }
  }

  lemma {:induction false} HighestIsAKey(pairs: seq<Pair>)
    requires OnlyIndexes(pairs) && pairs != []
    ensures HasKey(pairs, Int(Highest(pairs)))
  {
    var last := |pairs| - 1;
    if last > 0 && pairs[last].0.n <= Highest(pairs[..last]) {
      HighestIsAKey(pairs[..last]);
      var i :| 0 <= i < last && pairs[..last][i].0 == Int(Highest(pairs[..last]));
      assert pairs[i].0 == Int(Highest(pairs));
    } else {
      assert pairs[last].0 == Int(Highest(pairs));
    }
  }

  /** Any other table is an object: its pairs in traversal order, each key a
      name and each value its own document. */
  lemma MapReads(heap: Heap, path: Path, t: LuaTable) returns (ms: seq<(Value, Doc)>)
    requires Closed(heap) && WellFormed(t) && AllPairsPoint(heap, t.pairs) && EncodeTable(heap, path, t).Some?
    requires t.pairs != []
    requires t.border == 0 || exists i :: 0 <= i < |t.pairs| && t.pairs[i].0.Int? && t.pairs[i].0.n > 2 * |t.pairs|
    ensures ReadsAs(EncodeTable(heap, path, t), DMap(ms)) && |ms| == |t.pairs|
    ensures forall i :: 0 <= i < |t.pairs| ==>
      ms[i].0 == t.pairs[i].0 && ReadsAs(Encode(heap, path, t.pairs[i].1), ms[i].1)
  {
    ms := PairsRead(heap, path, t.pairs);
    MapEnclosed(EncodePairs(heap, path, t.pairs).value, ms);
  }

  /** Exactly when a table is encoded: no list part beside other keys; strings,
      integers, booleans and finite floats as keys where it has no list part; and
      values that are encoded. */
  lemma TableEncodesIff(heap: Heap, path: Path, t: LuaTable)
    requires Closed(heap) && WellFormed(t) && AllPairsPoint(heap, t.pairs)
    ensures EncodeTable(heap, path, t).Some? <==>
      && (t.border > 0 ==> forall i :: 0 <= i < |t.pairs| ==> t.pairs[i].0.Int? && t.pairs[i].0.n >= 1)
      && (t.border == 0 ==> forall i :: 0 <= i < |t.pairs| ==>
           var key := t.pairs[i].0; key.Text? || key.Int? || key.Bool? || (key.Float? && key.finite))
      && forall i :: 0 <= i < |t.pairs| ==> Encode(heap, path, t.pairs[i].1).Some?
  {
    PairsEncodeIff(heap, path, t.pairs);
    if t.border > 0 && OnlyIndexes(t.pairs) {
      ItemsPoint(heap, t);
      ItemsEncodeIff(heap, path, Items(t.pairs));
      ItemsArePairs(heap, path, t);
    }
  }

  lemma {:induction false} PairsEncodeIff(heap: Heap, path: Path, pairs: seq<Pair>)
    requires Closed(heap) && AllPairsPoint(heap, pairs)
    ensures EncodePairs(heap, path, pairs).Some? <==>
      forall i :: 0 <= i < |pairs| ==> CanName(pairs[i].0) && Encode(heap, path, pairs[i].1).Some?
    decreases |pairs|
  {
    if pairs != [] {
      PairsEncodeIff(heap, path, pairs[1..]);
      assert pairs == [pairs[0]] + pairs[1..];
    }
  }

  lemma {:induction false} ItemsEncodeIff(heap: Heap, path: Path, items: seq<Value>)
    requires Closed(heap) && AllPoint(heap, items)
    ensures EncodeItems(heap, path, items).Some? <==>
      forall k :: 0 <= k < |items| ==> Encode(heap, path, items[k]).Some?
    decreases |items|
  {
    if items != [] {
      ItemsEncodeIff(heap, path, items[1..]);
      assert items == [items[0]] + items[1..];
    }
  }

  /** A list's items are its values and nils, and a nil is always encoded. */
  lemma ItemsArePairs(heap: Heap, path: Path, t: LuaTable)
    requires Closed(heap) && WellFormed(t) && OnlyIndexes(t.pairs)
    requires AllPairsPoint(heap, t.pairs) && AllPoint(heap, Items(t.pairs))
    ensures (forall k :: 0 <= k < |Items(t.pairs)| ==> Encode(heap, path, Items(t.pairs)[k]).Some?) <==>
      forall i :: 0 <= i < |t.pairs| ==> Encode(heap, path, t.pairs[i].1).Some?
  {
    NoEntryLost(t);
    var items := Items(t.pairs);
    if forall i :: 0 <= i < |t.pairs| ==> Encode(heap, path, t.pairs[i].1).Some? {
      forall k | 0 <= k < |items| ensures Encode(heap, path, items[k]).Some? {
        if items[k] != Nil {
          var i :| 0 <= i < |t.pairs| && t.pairs[i].0 == Int(k + 1);
          assert items[k] == t.pairs[i].1;
        }
      }
    }
    if forall k :: 0 <= k < |items| ==> Encode(heap, path, items[k]).Some? {
      forall i | 0 <= i < |t.pairs| ensures Encode(heap, path, t.pairs[i].1).Some? {
        assert Encode(heap, path, items[t.pairs[i].0.n - 1]).Some?;
      }
    }
  }

  // ------------------------------------------------------ over one whole write

  /** `json:encode` and a reader after it. It answers exactly when the value is
      encoded within 128 levels, a million nodes and UTF-8. A nil reads as null,
      and an empty table as its metatable says. */
  method WriteThenRead(heap: Heap, v: Value) returns (doc: Option<Doc>)
    requires Closed(heap) && Points(heap, v)
    ensures doc.Some? <==>
      var plain := Encode(heap, [], v);
      plain.Some? && Peak(plain.value) <= 128 && Visits(plain.value) <= 1_000_000 && !HasOctets(plain.value)
    ensures doc.Some? ==> ReadsAs(Encode(heap, [], v), doc.value)
    ensures v.Nil? || v.Null? ==> doc == Some(DNull)
    ensures v.Bool? ==> doc == Some(DBool(v.b))
    ensures v.Int? ==> doc == Some(DInt(v.n))
    ensures v.Text? ==> doc == Some(DText(v.s))
    ensures v.Blob? || v.Opaque? ==> doc.None?
    ensures doc.Some? && v.Table? && heap[v.id].pairs == [] ==>
      doc.value == if heap[v.id].arrayMarked then DList([]) else DMap([])
  {
    var written := ToJson(heap, v);
    if !v.Table? && !v.Opaque? {
      LeafFits(heap, v);
      LeafReads(heap, [], v);
    }
    if written.Err? {
      return None;
    }
    ghost var d := EncodedReads(heap, [], v);
    if v.Table? && heap[v.id].pairs == [] {
      EmptyReads(heap, [] + [v.id], heap[v.id]);
    }
    doc := Some(ReadDoc(written.value).value.0);
  }

  /** A value without children is inside every bound unless it is no UTF-8. */
  lemma LeafFits(heap: Heap, v: Value)
    requires Closed(heap) && Points(heap, v) && !v.Table? && !v.Opaque?
    ensures Encode(heap, [], v).Some?
    ensures var ts := Encode(heap, [], v).value; Peak(ts) == 0 && Visits(ts) == 1 && (HasOctets(ts) <==> v.Blob?)
  {
    OneToken(if v.Blob? then Octets(v.s) else Atom(v));
  }
}
