/** What single characters of a query mean, and how its text is laid out. */
module QueryText {
  import opened Basics
  import opened Percent
  import opened Query
  import opened Sorting
  import opened Strings

  // ------------------------------------------------------- percent-decoding

  /** A hexadecimal digit of either case, and its number. */
  predicate IsHex(b: byte, n: nat) {
    || (n < 10 && b as int == 48 + n)
    || (10 <= n < 16 && (b as int == 65 + (n - 10) || b as int == 97 + (n - 10)))
  }

  lemma HexIff(b: byte)
    ensures HexValue(b).Some? <==> exists n: nat :: IsHex(b, n)
    ensures forall n: nat :: IsHex(b, n) ==> HexValue(b) == Some(n)
  {
    if HexValue(b).Some? {
      assert IsHex(b, HexValue(b).value);
    }
  }

  /** `%` and two hexadecimal digits, in either case, are the byte they name; any other
      byte, a `%` without them included, is itself. */
  lemma DecodeMeans(s: Bytes, hi: nat, lo: nat)
    requires s != []
    ensures s[0] == 0x25 && |s| >= 3 && IsHex(s[1], hi) && IsHex(s[2], lo) ==>
      16 * hi + lo < 256 && Decode(s) == [(16 * hi + lo) as byte] + Decode(s[3..])
    ensures s[0] != 0x25 || |s| < 3 || (forall n: nat :: !IsHex(s[1], n)) || (forall n: nat :: !IsHex(s[2], n)) ==>
      Decode(s) == [s[0]] + Decode(s[1..])
  {
    if |s| >= 3 {
      HexIff(s[1]);
      HexIff(s[2]);
    }
  }

  /** In a form a plus is a space, and everything else is decoded as elsewhere. */
  lemma FormDecodeMeans(s: Bytes, rest: Bytes)
    ensures FormDecode([0x2B] + rest) == [0x20] + FormDecode(rest)
    ensures 0x2B !in s ==> FormDecode(s) == Decode(s)
  {
    assert PlusToSpace([0x2B] + rest) == [0x20] + PlusToSpace(rest);
    assert ([0x20] + PlusToSpace(rest))[1..] == PlusToSpace(rest);
    if 0x2B !in s {
      assert PlusToSpace(s) == s;
    }
  }

  /** Letters, digits and `-_.~` are written as they are; every other byte as `%` and
      two upper-case digits. */
  lemma EncodeMeans(b: byte, rest: Bytes)
    ensures 48 <= b <= 57 || 65 <= b <= 90 || 97 <= b <= 122 || b in [0x2D, 0x5F, 0x2E, 0x7E] ==>
      Encode([b] + rest) == [b] + Encode(rest)
    ensures !(48 <= b <= 57 || 65 <= b <= 90 || 97 <= b <= 122 || b in [0x2D, 0x5F, 0x2E, 0x7E]) ==>
      exists hi, lo :: Encode([b] + rest) == [0x25, hi, lo] + Encode(rest)
        && IsHex(hi, b as int / 16) && IsHex(lo, b as int % 16) && hi <= 70 && lo <= 70
  {
    assert ([b] + rest)[1..] == rest;
    var hi, lo := HexDigit(b as int / 16), HexDigit(b as int % 16);
    assert IsHex(hi, b as int / 16) && IsHex(lo, b as int % 16) && hi <= 70 && lo <= 70;
  }

  // ------------------------------------------------------------- segments

  /** A segment without `=` is a key with an empty value; one with it is split at the first. */
  lemma SegmentMeans(segment: Bytes, at: nat)
    requires at <= |segment| && 0x3D !in segment[..at] && (at < |segment| ==> segment[at] == 0x3D)
    ensures ReadSegment(segment) ==
      if at == |segment| then Row(FormDecode(segment), [])
      else Row(FormDecode(segment[..at]), FormDecode(segment[at + 1..]))
  {
    assert forall i :: 0 <= i < at ==> segment[..at][i] == segment[i];
    IndexIs(segment, EQUALS, at);
    assert FormDecode([]) == [];
  }

  /** One question mark in front is dropped, and no more. */
  lemma QuestionMeans(query: Bytes)
    ensures Parsed([0x3F] + query) == Collect(Split(query, 0x26))
    ensures query == [] || query[0] != 0x3F ==> Parsed(query) == Collect(Split(query, 0x26))
  {
    assert ([0x3F] + query)[1..] == query;
  }

  ghost predicate KeyAt(segments: seq<Bytes>, i: int, key: Bytes) {
    0 <= i < |segments| && segments[i] != [] && ReadSegment(segments[i]).key == key
  }

  ghost predicate IsLastAt(segments: seq<Bytes>, i: int, key: Bytes) {
    KeyAt(segments, i, key) && forall j :: i < j < |segments| ==> !KeyAt(segments, j, key)
  }

  /** The last segment with a key gives its value, and a key without one has none. */
  lemma {:induction false} LastSegmentWins(segments: seq<Bytes>, key: Bytes)
    ensures key !in Collect(segments) ==> forall i :: !KeyAt(segments, i, key)
    ensures key in Collect(segments) ==>
      exists i :: IsLastAt(segments, i, key) && Collect(segments)[key] == ReadSegment(segments[i]).value
    decreases |segments|
  {
    if segments != [] {
      var init, last := segments[..|segments| - 1], |segments| - 1;
      LastSegmentWins(init, key);
      forall i | 0 <= i < last ensures KeyAt(init, i, key) <==> KeyAt(segments, i, key) {
        assert init[i] == segments[i];
      }
      if KeyAt(segments, last, key) {
        assert IsLastAt(segments, last, key);
      } else if key in Collect(segments) {
        var i :| IsLastAt(init, i, key) && Collect(init)[key] == ReadSegment(init[i]).value;
        assert IsLastAt(segments, i, key);
      }
    }
  }

  // ------------------------------------------------------------- building

  /** Strings and numbers are keys and values as they are; a boolean is a value only. */
  lemma ParamMeans(p: Param)
    ensures p.Text? ==> KeyText(p) == Some(p.s) && ValueText(p) == Some(p.s)
    ensures p.Number? ==> KeyText(p) == Some(p.text) && ValueText(p) == Some(p.text)
    ensures p.Boolean? ==> KeyText(p) == None
    ensures p == Boolean(true) ==> ValueText(p) == Some([0x74, 0x72, 0x75, 0x65])
    ensures p == Boolean(false) ==> ValueText(p) == Some([0x66, 0x61, 0x6C, 0x73, 0x65])
    ensures p.Unencodable? ==> KeyText(p) == None && ValueText(p) == None
  {
  }

  /** The built text of a table: `key=value`, both encoded, for each of its keys, in
      ascending order of the keys as bytes, with `&` between them. */
  lemma BuiltIsAscending(rows: seq<Row>, m: Table) returns (sorted: seq<Row>)
    requires Lists(rows, m)
    ensures Lists(sorted, m)
    ensures Built(rows) == Join(Segments(sorted), 0x26)
    ensures forall i :: 0 <= i < |sorted| ==>
      Segments(sorted)[i] == Encode(sorted[i].key) + [0x3D] + Encode(sorted[i].value)
    ensures forall i, j :: 0 <= i < j < |sorted| ==> KeysAscend(sorted[i], sorted[j])
  {
    sorted := Sort(rows, RowLeq);
    ListsSorted(rows, m);
    SortedAscends(sorted);
  }

  ghost predicate KeysAscend(a: Row, b: Row) {
    exists at :: ComesBefore(a.key, b.key, at)
  }

  lemma SortedAscends(rows: seq<Row>)
    requires SortedBy(rows, RowLeq) && forall i, j :: 0 <= i < j < |rows| ==> rows[i].key != rows[j].key
    ensures forall i, j :: 0 <= i < j < |rows| ==> KeysAscend(rows[i], rows[j])
  {
    forall i, j | 0 <= i < j < |rows| ensures KeysAscend(rows[i], rows[j]) {
      assert RowLeq(rows[i], rows[j]);
      RowsAscend(rows[i], rows[j]);
    }
  }

  lemma RowsAscend(a: Row, b: Row)
    requires RowLeq(a, b) && a.key != b.key
    ensures KeysAscend(a, b)
  {
    BytesLeqIff(a.key, b.key);
  }
}
