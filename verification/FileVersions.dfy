/**
 A file that is replaced while a client downloads it. The server's tag is the length and
 the second of the last change, so what a resumed download puts together depends on
 whether those two tell the versions apart.
 */
module FileVersions {
  import opened Basics
  import opened Headers
  import opened Strings
  import opened Range
  import opened FileBody

  datatype Version = Version(bytes: Bytes, modified: Option<SystemTime>) {
    function Second(): nat { if modified.Some? then Secs(modified.value) else 0 }

    function Etag(): string { Tag(|bytes|, Second()) }
  }

  predicate IsHex(c: char) { '0' <= c <= '9' || 'a' <= c <= 'f' }

  function HexChar(d: nat): (c: char)
    requires d < 16
    ensures IsHex(c) && HexDigit(c) == d
  {
    if d < 10 then ('0' as int + d) as char else ('a' as int + (d - 10)) as char
  }

  function HexDigit(c: char): nat
    requires IsHex(c)
  {
    if c <= '9' then c as int - '0' as int else c as int - 'a' as int + 10
  }

  /** `{:x}`: lower case, without leading zeros. */
  function Hex(n: nat): string {
    if n < 16 then [HexChar(n)] else Hex(n / 16) + [HexChar(n % 16)]
  }

  predicate AllHex(s: string) { forall i :: 0 <= i < |s| ==> IsHex(s[i]) }

  function HexValue(s: string): nat
    requires AllHex(s)
  {
    if s == [] then 0 else 16 * HexValue(s[..|s| - 1]) + HexDigit(s[|s| - 1])
  }

  lemma {:induction false} HexReads(n: nat)
    ensures AllHex(Hex(n)) && HexValue(Hex(n)) == n
  {
    if n < 16 {
      assert Hex(n)[..0] == [];
    } else {
      HexReads(n / 16);
      assert Hex(n)[..|Hex(n)| - 1] == Hex(n / 16);
    }
  }

  function Tag(len: nat, second: nat): string { "\"" + (Hex(len) + "-" + Hex(second)) + "\"" }

  /** A file of 31 bytes changed in second 10. */
  lemma TagExample()
    ensures Tag(31, 10) == "\"1f-a\""
  {
    assert Hex(31) == Hex(1) + [HexChar(15)];
  }

  /** A tag spells the length and the second, which is zero without a time or before 1970. */
  lemma EtagIs(v: Version)
    ensures v.modified.None? ==> v.Etag() == "\"" + (Hex(|v.bytes|) + "-" + Hex(0)) + "\""
    ensures v.modified.Some? ==>
      var second := if v.modified.value < 0 then 0 else v.modified.value / 1_000_000_000;
      v.Etag() == "\"" + (Hex(|v.bytes|) + "-" + Hex(second)) + "\""
  {
  }

  lemma DashSplits(a: string, b: string)
    requires AllHex(a)
    ensures var s := a + "-" + b; IndexOf(s, '-') == |a| && s[..|a|] == a && s[|a| + 1..] == b
  {
    var s := a + "-" + b;
    assert forall i :: 0 <= i < |a| ==> s[i] == a[i];
    IndexIs(s, '-', |a|);
  }

  /** Tags are equal exactly when length and second are. */
  lemma TagsAgreeIff(len: nat, second: nat, len': nat, second': nat)
    ensures Tag(len, second) == Tag(len', second') <==> len == len' && second == second'
  {
    if Tag(len, second) == Tag(len', second') {
      var s, s' := Hex(len) + "-" + Hex(second), Hex(len') + "-" + Hex(second');
      assert s == Tag(len, second)[1..|Tag(len, second)| - 1];
      assert s' == Tag(len', second')[1..|Tag(len', second')| - 1];
      HexReads(len);
      HexReads(len');
      HexReads(second);
      HexReads(second');
      DashSplits(Hex(len), Hex(second));
      DashSplits(Hex(len'), Hex(second'));
    }
  }

  lemma HexIsVisible(s: string)
    requires AllHex(s)
    ensures VisibleText(s)
  {
    forall i | 0 <= i < |s| ensures s[i] as int < 0x80 && VisibleByte(s[i] as byte) {
      assert IsHex(s[i]);
    }
  }

  lemma TagIsVisible(len: nat, second: nat)
    ensures VisibleText(Tag(len, second))
  {
    HexReads(len);
    HexReads(second);
    HexIsVisible(Hex(len));
    HexIsVisible(Hex(second));
    assert VisibleText("-") && VisibleText("\"");
    VisibleJoins(Hex(len), "-");
    VisibleJoins(Hex(len) + "-", Hex(second));
    VisibleJoins("\"", Hex(len) + "-" + Hex(second));
    VisibleJoins("\"" + (Hex(len) + "-" + Hex(second)), "\"");
  }

  /** A client that got the server's tag with `before` asks `after` for a range under it. */
  function Asking(before: Version, after: Version, parseDate: string -> Option<SystemTime>): Validators {
    TagIsVisible(|before.bytes|, before.Second());
    Validators(Some(ToBytes(before.Etag())), after.Etag(), after.modified, parseDate)
  }

  /** The server's own tag is honoured exactly when the versions agree in length and second. */
  lemma TagMatchesIff(before: Version, after: Version, parseDate: string -> Option<SystemTime>)
    ensures Asking(before, after, parseDate).Match() <==>
      |before.bytes| == |after.bytes| && before.Second() == after.Second()
  {
    var tag := before.Etag();
    TagIsVisible(|before.bytes|, before.Second());
    TextReadsBack(tag);
    assert tag[0] == '"' && tag[|tag| - 1] == '"';
    TrimNothing(tag);
    assert "\"" <= tag;
    TagsAgreeIff(|before.bytes|, before.Second(), |after.bytes|, after.Second());
  }

  lemma RestResolves(n: nat, len: nat)
    requires n < len <= U64_MAX
    ensures Parse(PrintAsk(From(n)), len) == Partial(n, len - 1)
  {
    AskedPrint(From(n));
    ParseMeans(PrintAsk(From(n)), len);
    RestIs(Parse(PrintAsk(From(n)), len), n, len);
  }

  lemma RestIs(r: Resolved, n: nat, len: nat)
    requires n < len && ExactlyWanted(r, From(n), len)
    ensures r == Partial(n, len - 1)
  {
    assert Wants(From(n), len, n) && Wants(From(n), len, len - 1);
    if r.Partial? {
      assert Wants(From(n), len, r.start) && Wants(From(n), len, r.end);
    }
  }

  /** What the answer is to a request for the rest of the file from `n` on. */
  lemma RestAnswer(before: Version, after: Version, n: nat, parseDate: string -> Option<SystemTime>)
    requires n < |after.bytes| <= U64_MAX
    ensures ResolveFor(after.bytes, AskValue(From(n)), Asking(before, after, parseDate)) ==
      if |before.bytes| == |after.bytes| && before.Second() == after.Second() then Partial(n, |after.bytes| - 1) else Full
  {
    TagMatchesIff(before, after, parseDate);
    AskIsVisible(From(n));
    TextReadsBack(PrintAsk(From(n)));
    RestResolves(n, |after.bytes|);
  }

  /** What a client holding `held` has after the answer: a part is appended, a whole file
      replaces what it had, and a 416 gives nothing. */
  function Assembled(held: Bytes, file: Bytes, r: Resolved): Option<Bytes>
    requires r.Partial? ==> r.start <= r.end
  {
    match BodyFor(file, r)
    case None => None
    case Some(body) => if r.Partial? then Some(held + body) else Some(body)
  }

  /** What a client that holds the first `n` bytes of `before` has after resuming. */
  function Resumed(before: Version, after: Version, n: nat, parseDate: string -> Option<SystemTime>): Option<Bytes>
    requires n <= |before.bytes| && n < |after.bytes| <= U64_MAX
  {
    RestAnswer(before, after, n, parseDate);
    Assembled(before.bytes[..n], after.bytes, ResolveFor(after.bytes, AskValue(From(n)), Asking(before, after, parseDate)))
  }

  /** A resumed download ends with the current file exactly when the versions differ in
      length or second, or the part already held is the same in both. */
  lemma ResumedIsCurrentIff(before: Version, after: Version, n: nat, parseDate: string -> Option<SystemTime>)
    requires n <= |before.bytes| && n < |after.bytes| <= U64_MAX
    ensures Resumed(before, after, n, parseDate) == Some(after.bytes) <==>
      || |before.bytes| != |after.bytes| || before.Second() != after.Second()
      || before.bytes[..n] == after.bytes[..n]
  {
    RestAnswer(before, after, n, parseDate);
    RestAssembles(before.bytes[..n], after.bytes, n);
  }

  lemma RestAssembles(held: Bytes, file: Bytes, n: nat)
    requires |held| == n < |file|
    ensures Assembled(held, file, Full) == Some(file)
    ensures Assembled(held, file, Partial(n, |file| - 1)) == Some(held + file[n..])
    ensures held + file[n..] == file <==> held == file[..n]
  {
    assert Slice(file, 0, |file|) == file && Slice(file, n, |file| - n) == file[n..];
    assert (held + file[n..])[..n] == held;
    assert file[..n] + file[n..] == file;
  }

  /** A file replaced within one second by another of the same length: the client ends with
      the first byte of the old one and the second of the new one. */
  lemma SameSecondStitches(at: Option<SystemTime>, parseDate: string -> Option<SystemTime>)
    ensures Resumed(Version([0, 0], at), Version([1, 1], at), 1, parseDate) == Some([0, 1])
  {
    var before, after: Version := Version([0, 0], at), Version([1, 1], at);
    RestAnswer(before, after, 1, parseDate);
    RestAssembles([0], [1, 1], 1);
    assert before.bytes[..1] == [0] && [0] + after.bytes[1..] == [0, 1];
  }
}
