/** `query_parse` and `query_build`: a table of byte strings as a query string and back. */
module Query {
  import opened Basics
  import opened Percent
  import opened Sorting
  import opened Strings

  type Table = map<Bytes, Bytes>

  datatype Row = Row(key: Bytes, value: Bytes)

  /** Pairs compare by key, then by value. */
  const RowLeq: (Row, Row) -> bool :=
    (a: Row, b: Row) => if a.key == b.key then BytesLeq(a.value, b.value) else BytesLeq(a.key, b.key)

  lemma RowOrderIsTotal()
    ensures TotalOrder(RowLeq)
  {
    OrdersAreTotal();
    forall a, b
      ensures RowLeq(a, b) || RowLeq(b, a)
      ensures RowLeq(a, b) && RowLeq(b, a) ==> a == b
    {
      assert BytesLeq(a.key, b.key) || BytesLeq(b.key, a.key);
      assert BytesLeq(a.value, b.value) || BytesLeq(b.value, a.value);
    }
    forall a, b, c | RowLeq(a, b) && RowLeq(b, c) ensures RowLeq(a, c) {
      assert BytesLeq(a.key, b.key) && BytesLeq(b.key, c.key) ==> BytesLeq(a.key, c.key);
      assert BytesLeq(a.value, b.value) && BytesLeq(b.value, c.value) ==> BytesLeq(a.value, c.value);
    }
  }

  // --------------------------------------------------------------- parsing

  /** A segment's key and value, split at its first `=`. */
  function ReadSegment(segment: Bytes): Row {
    var at := IndexOf(segment, EQUALS);
    if at == |segment| then Row(FormDecode(segment), FormDecode([]))
    else Row(FormDecode(segment[..at]), FormDecode(segment[at + 1..]))
  }

  /** Later segments win; empty ones are skipped. */
  function Collect(segments: seq<Bytes>): Table {
    if segments == [] then map[]
    else
      var rest, last := Collect(segments[..|segments| - 1]), segments[|segments| - 1];
      if last == [] then rest else rest[ReadSegment(last).key := ReadSegment(last).value]
  }

  function StripQuestion(query: Bytes): Bytes {
    if query != [] && query[0] == QUESTION then query[1..] else query
  }

  function Parsed(query: Bytes): Table { Collect(Split(StripQuestion(query), AMP)) }

  method Parse(query: Bytes) returns (table: Table)
    ensures table == Parsed(query)
  {
    table := map[];
    var segments := Split(StripQuestion(query), AMP);
    for i := 0 to |segments|
      invariant table == Collect(segments[..i])
    {
      assert segments[..i + 1][..i] == segments[..i];
      if segments[i] != [] {
        var row := ReadSegment(segments[i]);
        table := table[row.key := row.value];
      }
    }
    assert segments[..|segments|] == segments;
  }

  // -------------------------------------------------------------- building

  /** A Lua value as a query key or value; numbers come with their text. */
  datatype Param = Text(s: Bytes) | Number(text: Bytes) | Boolean(b: bool) | Unencodable

  datatype QueryError = BadKey | BadValue

  const TRUE: Bytes := [0x74, 0x72, 0x75, 0x65]
  const FALSE: Bytes := [0x66, 0x61, 0x6C, 0x73, 0x65]

  function KeyText(p: Param): Option<Bytes> {
    match p
    case Text(s) => Some(s)
    case Number(text) => Some(text)
    case _ => None
  }

  function ValueText(p: Param): Option<Bytes> {
    match p
    case Text(s) => Some(s)
    case Number(text) => Some(text)
    case Boolean(b) => Some(if b then TRUE else FALSE)
    case Unencodable => None
  }

  predicate Encodable(pair: (Param, Param)) { KeyText(pair.0).Some? && ValueText(pair.1).Some? }

  function RowOf(pair: (Param, Param)): Row
    requires Encodable(pair)
  {
    Row(KeyText(pair.0).value, ValueText(pair.1).value)
  }

  function RowsOf(pairs: seq<(Param, Param)>): seq<Row>
    requires forall i :: 0 <= i < |pairs| ==> Encodable(pairs[i])
  {
    seq(|pairs|, i requires 0 <= i < |pairs| => RowOf(pairs[i]))
  }

  function Segment(r: Row): Bytes { Encode(r.key) + [EQUALS] + Encode(r.value) }

  function Segments(rows: seq<Row>): seq<Bytes> {
    seq(|rows|, i requires 0 <= i < |rows| => Segment(rows[i]))
  }

  /** The text for some rows: one segment each, in sorted order. */
  function Built(rows: seq<Row>): Bytes { Join(Segments(Sort(rows, RowLeq)), AMP) }

  /** Pairs in traversal order; a key or a value that is not plain data is refused. */
  method Build(pairs: seq<(Param, Param)>) returns (r: Result<Bytes, QueryError>)
    ensures r.Ok? <==> forall i :: 0 <= i < |pairs| ==> Encodable(pairs[i])
    ensures r.Ok? ==> r.value == Built(RowsOf(pairs))
  {
    var rows: seq<Row> := [];
    for i := 0 to |pairs|
      invariant forall j :: 0 <= j < i ==> Encodable(pairs[j])
      invariant rows == RowsOf(pairs[..i])
    {
      var key := KeyText(pairs[i].0);
      if key.None? {
        return Err(BadKey);
      }
      var value := ValueText(pairs[i].1);
      if value.None? {
        return Err(BadValue);
      }
      rows := rows + [Row(key.value, value.value)];
    }
    assert pairs[..|pairs|] == pairs;
    r := Ok(Join(Segments(Sort(rows, RowLeq)), AMP));
  }

  // ------------------------------------------------------------ round trip

  /** The table rows describe, later rows winning. */
  function TableOf(rows: seq<Row>): Table {
    if rows == [] then map[]
    else TableOf(rows[..|rows| - 1])[rows[|rows| - 1].key := rows[|rows| - 1].value]
  }

  /** A row's segment reads back as the row; it holds one `=` and none of the other
      delimiters. */
  lemma SegmentReads(r: Row)
    ensures ReadSegment(Segment(r)) == r
    ensures AMP !in Segment(r) && QUESTION !in Segment(r) && Segment(r) != []
    ensures multiset(Segment(r))[EQUALS] == 1
  {
    EncodedIsPlain(r.key);
    EncodedIsPlain(r.value);
    FormDecodeEncode(r.key);
    FormDecodeEncode(r.value);
    SplitsAtEquals(Encode(r.key), Encode(r.value));
    OneEquals(Encode(r.key), Encode(r.value));
  }

  lemma SplitsAtEquals(k: Bytes, v: Bytes)
    requires EQUALS !in k
    ensures ReadSegment(k + [EQUALS] + v) == Row(FormDecode(k), FormDecode(v))
  {
    var s := k + [EQUALS] + v;
    assert forall i :: 0 <= i < |k| ==> s[i] == k[i];
    IndexIs(s, EQUALS, |k|);
    assert s[..|k|] == k && s[|k| + 1..] == v;
  }

  lemma OneEquals(k: Bytes, v: Bytes)
    requires EQUALS !in k && EQUALS !in v
    ensures multiset(k + [EQUALS] + v)[EQUALS] == 1
  {
    assert multiset(k + [EQUALS] + v) == multiset(k) + multiset{EQUALS} + multiset(v);
  }

  lemma SegmentsLast(rows: seq<Row>)
    requires rows != []
    ensures Segments(rows) == Segments(rows[..|rows| - 1]) + [Segment(rows[|rows| - 1])]
  {
  }

  lemma {:induction false} CollectSegments(rows: seq<Row>)
    ensures Collect(Segments(rows)) == TableOf(rows)
  {
    if rows != [] {
      var init, last := rows[..|rows| - 1], rows[|rows| - 1];
      CollectSegments(init);
      SegmentsLast(rows);
      CollectLast(Segments(rows), Segments(init), last);
    }
  }

  lemma CollectLast(all: seq<Bytes>, init: seq<Bytes>, last: Row)
    requires all == init + [Segment(last)]
    ensures Collect(all) == Collect(init)[last.key := last.value]
  {
    SegmentReads(last);
    CollectOne(all, init, Segment(last), last);
  }

  lemma CollectOne(all: seq<Bytes>, init: seq<Bytes>, last: Bytes, row: Row)
    requires all == init + [last] && last != [] && ReadSegment(last) == row
    ensures Collect(all) == Collect(init)[row.key := row.value]
  {
    assert all[..|all| - 1] == init;
  }

  /** Parsing built text gives the rows back, and the text has one segment per row. */
  lemma ParseJoined(rows: seq<Row>)
    ensures Parsed(Join(Segments(rows), AMP)) == TableOf(rows)
    ensures rows != [] ==> Split(Join(Segments(rows), AMP), AMP) == Segments(rows)
  {
    var segments := Segments(rows);
    CollectSegments(rows);
    if rows == [] {
      var nothing: seq<Bytes> := [[]];
      assert nothing[..0] == [];
    } else {
      forall i | 0 <= i < |rows| ensures AMP !in segments[i] {
        SegmentReads(rows[i]);
      }
      SplitJoin(segments, AMP);
      SegmentReads(rows[0]);
      assert segments[0][0] in segments[0];
      assert Join(segments, AMP)[0] == segments[0][0];
    }
  }

  ghost predicate HasRow(rows: seq<Row>, k: Bytes) {
    exists i :: 0 <= i < |rows| && rows[i].key == k
  }

  /** `rows` lists a table, each key once. */
  ghost predicate Lists(rows: seq<Row>, m: Table) {
    && (forall i, j :: 0 <= i < j < |rows| ==> rows[i].key != rows[j].key)
    && (forall i :: 0 <= i < |rows| ==> rows[i].key in m && m[rows[i].key] == rows[i].value)
    && (forall k :: k in m ==> HasRow(rows, k))
  }

  lemma {:induction false} ListsTable(rows: seq<Row>, m: Table)
    requires Lists(rows, m)
    ensures TableOf(rows) == m
    decreases |rows|
  {
    if rows == [] {
      forall k ensures k !in m {
        assert k in m ==> HasRow(rows, k);
      }
    } else {
      var init, last := rows[..|rows| - 1], rows[|rows| - 1];
      forall k | k in m - {last.key} ensures HasRow(init, k) {
        var i :| 0 <= i < |rows| && rows[i].key == k;
        assert init[i].key == k;
      }
      ListsTable(init, m - {last.key});
      assert (m - {last.key})[last.key := last.value] == m;
    }
  }

  lemma ListsSorted(rows: seq<Row>, m: Table)
    requires Lists(rows, m)
    ensures var sorted := Sort(rows, RowLeq);
      Lists(sorted, m) && NoRepeats(sorted) && SortedBy(sorted, RowLeq)
  {
    var sorted := Sort(rows, RowLeq);
    RowOrderIsTotal();
    SortSorts(rows, RowLeq);
    SameElements(rows, sorted);
    assert NoRepeats(rows) by {
      assert forall i, j :: 0 <= i < j < |rows| ==> rows[i].key != rows[j].key;
    }
    SortKeepsNoRepeats(rows, RowLeq);
    forall i | 0 <= i < |sorted| ensures sorted[i].key in m && m[sorted[i].key] == sorted[i].value {
      assert sorted[i] in rows;
    }
    forall i, j | 0 <= i < j < |sorted| ensures sorted[i].key != sorted[j].key {
      assert sorted[i] != sorted[j];
    }
    forall k | k in m ensures HasRow(sorted, k) {
      var i :| 0 <= i < |rows| && rows[i].key == k;
      assert rows[i] in sorted;
    }
  }

  /** For every finite table of byte strings, in whatever order it is traversed:
      building and parsing gives the table back. */
  lemma QueryRoundTrip(rows: seq<Row>, m: Table)
    requires Lists(rows, m)
    ensures Parsed(Built(rows)) == m
  {
    ListsSorted(rows, m);
    ParseJoined(Sort(rows, RowLeq));
    ListsTable(Sort(rows, RowLeq), m);
  }

  lemma RowIn(rows: seq<Row>, m: Table, r: Row)
    requires Lists(rows, m)
    ensures r in rows <==> r.key in m && m[r.key] == r.value
  {
    if r.key in m && m[r.key] == r.value {
      var i :| 0 <= i < |rows| && rows[i].key == r.key;
      assert rows[i] == r;
    }
  }

  /** The built text does not depend on the order of traversal. */
  lemma BuildIsDeterministic(a: seq<Row>, b: seq<Row>, m: Table)
    requires Lists(a, m) && Lists(b, m)
    ensures Built(a) == Built(b)
  {
    RowOrderIsTotal();
    ListsSorted(a, m);
    ListsSorted(b, m);
    forall r ensures r in Sort(a, RowLeq) <==> r in Sort(b, RowLeq) {
      RowIn(Sort(a, RowLeq), m, r);
      RowIn(Sort(b, RowLeq), m, r);
    }
    SortedUnique(Sort(a, RowLeq), Sort(b, RowLeq), RowLeq);
  }

  /** Rebuilding a parsed query is idempotent: parsing the rebuilt text and building again
      gives the same text, in whatever order the tables are traversed. */
  lemma RebuildIsIdempotent(query: Bytes, rows: seq<Row>, again: seq<Row>)
    requires Lists(rows, Parsed(query)) && Lists(again, Parsed(Built(rows)))
    ensures Parsed(Built(rows)) == Parsed(query) && Built(again) == Built(rows)
  {
    QueryRoundTrip(rows, Parsed(query));
    BuildIsDeterministic(rows, again, Parsed(query));
  }

  /** The built text has one segment per key and one `=` in each. */
  lemma SegmentPerKey(rows: seq<Row>, m: Table)
    requires Lists(rows, m) && m != map[]
    ensures |Split(Built(rows), AMP)| == |m|
    ensures forall s :: s in Split(Built(rows), AMP) ==> multiset(s)[EQUALS] == 1
  {
    var sorted := Sort(rows, RowLeq);
    ListsSorted(rows, m);
    ListsCount(sorted, m);
    ParseJoined(sorted);
    forall s | s in Segments(sorted) ensures multiset(s)[EQUALS] == 1 {
      var i :| 0 <= i < |sorted| && Segments(sorted)[i] == s;
      SegmentReads(sorted[i]);
    }
  }

  lemma {:induction false} ListsCount(rows: seq<Row>, m: Table)
    requires Lists(rows, m)
    ensures |rows| == |m|
    decreases |rows|
  {
    if rows == [] {
      assert forall k :: k in m ==> HasRow(rows, k);
      assert m == map[];
    } else {
      var init, last := rows[..|rows| - 1], rows[|rows| - 1];
      forall k | k in m - {last.key} ensures HasRow(init, k) {
        var i :| 0 <= i < |rows| && rows[i].key == k;
        assert init[i].key == k;
      }
      ListsCount(init, m - {last.key});
      assert (m - {last.key}).Keys == m.Keys - {last.key};
      assert |(m - {last.key}).Keys| == |m - {last.key}| && |m.Keys| == |m|;
    }
  }
}
