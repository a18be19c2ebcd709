/** Which budget a request is charged to. */
module ClientKeys {
  import opened Basics
  import opened Headers
  import opened Strings

  type Segment = n: nat | n < 0x1_0000

  /** An IPv4 address as two 16-bit halves, an IPv6 address as eight segments. */
  datatype Ip = V4(hi: Segment, lo: Segment) | V6(s: seq<Segment>)

  predicate ValidIp(ip: Ip) { ip.V6? ==> |ip.s| == 8 }

  /** `::ffff:a.b.c.d` is the IPv4 address it maps. */
  function Canonical(ip: Ip): Ip
    requires ValidIp(ip)
  {
    if ip.V6? && ip.s[..6] == [0, 0, 0, 0, 0, 0xFFFF] then V4(ip.s[6], ip.s[7]) else ip
  }

  function BucketKey(ip: Ip): Ip
    requires ValidIp(ip)
  {
    match Canonical(ip)
    case V4(hi, lo) => V4(hi, lo)
    case V6(s) => V6([s[0], s[1], s[2], s[3], 0, 0, 0, 0])
  }

  /** Two addresses share a budget exactly when they are the same IPv4 address,
      mapped or not, or lie in the same IPv6 /64. */
  lemma SharedBudgetIff(a: Ip, b: Ip)
    requires ValidIp(a) && ValidIp(b)
    ensures BucketKey(a) == BucketKey(b) <==>
      var (x, y) := (Canonical(a), Canonical(b));
      if x.V4? then x == y else y.V6? && x.s[..4] == y.s[..4]
  {
    var x, y := Canonical(a), Canonical(b);
    if x.V6? && y.V6? {
      var p, q := BucketKey(a).s, BucketKey(b).s;
      assert p[..4] == x.s[..4] && q[..4] == y.s[..4];
      assert p == p[..4] + [0, 0, 0, 0] && q == q[..4] + [0, 0, 0, 0];
    }
  }

  /** The budget of every address: an IPv4 address its own, mapped or not; any other
      IPv6 address the one of its first four segments. */
  lemma BucketKeyIs(ip: Ip)
    requires ValidIp(ip)
    ensures ip.V4? ==> BucketKey(ip) == ip
    ensures ip.V6? ==>
      if ip.s[0] == ip.s[1] == ip.s[2] == ip.s[3] == ip.s[4] == 0 && ip.s[5] == 0xFFFF then
        BucketKey(ip) == V4(ip.s[6], ip.s[7])
      else
        BucketKey(ip) == V6([ip.s[0], ip.s[1], ip.s[2], ip.s[3], 0, 0, 0, 0])
  {
    if ip.V6? {
      assert ip.s[..6] == [ip.s[0], ip.s[1], ip.s[2], ip.s[3], ip.s[4], ip.s[5]];
    }
  }

  /** The text after the last comma of the last line, when that line is visible ASCII. */
  function LastEntry(lines: seq<HeaderValue>): Option<string> {
    if lines == [] || ToStr(lines[|lines| - 1]).None? then None
    else
      var line := ToStr(lines[|lines| - 1]).value;
      var comma := LastIndexOf(line, ',');
      Some(Trim(if comma == |line| then line else line[comma + 1..]))
  }

  /** The forwarded address when trusted and readable, else the peer's. */
  function ClientKey(trusted: bool, lines: seq<HeaderValue>, peer: Ip, parse: string -> Option<Ip>): Ip
    requires ValidIp(peer) && forall s :: parse(s).Some? ==> ValidIp(parse(s).value)
  {
    var entry := LastEntry(lines);
    if trusted && entry.Some? && parse(entry.value).Some? then BucketKey(parse(entry.value).value)
    else BucketKey(peer)
  }

  const COMMA: byte := 0x2C

  /** The last line when a proxy appends its entry to what the client wrote. */
  function Appended(front: HeaderValue, entry: HeaderValue): HeaderValue { front + [COMMA] + entry }

  lemma AppendedReads(front: HeaderValue, entry: HeaderValue)
    requires COMMA !in entry
    ensures ToStr(Appended(front, entry)).Some? <==> Visible(front) && Visible(entry)
    ensures Visible(front) && Visible(entry) ==> LastEntry([Appended(front, entry)]) == LastEntry([entry])
  {
    VisibleAppend(front, [COMMA]);
    VisibleAppend(front + [COMMA], entry);
    if Visible(front) && Visible(entry) {
      var line, text := ToStr(Appended(front, entry)).value, ToStr(entry).value;
      assert ToStr([COMMA]).value == ",";
      LastIndexIs(line, ',', |front|);
      assert line[|front| + 1..] == text;
      assert ',' !in text;
      assert LastIndexOf(text, ',') == |text|;
    }
  }

  /** Without trust, without a forwarded line, or with a byte outside visible ASCII in
      the last one, a request is charged to the peer. */
  lemma PeerIsCharged(trusted: bool, lines: seq<HeaderValue>, peer: Ip, parse: string -> Option<Ip>)
    requires ValidIp(peer) && forall s :: parse(s).Some? ==> ValidIp(parse(s).value)
    requires
      || !trusted
      || lines == []
      || var line := lines[|lines| - 1]; exists i :: 0 <= i < |line| && !(32 <= line[i] <= 126 || line[i] == 9)
    ensures ClientKey(trusted, lines, peer, parse) == BucketKey(peer)
  {
    if lines != [] {
      TextIff(lines[|lines| - 1]);
    }
  }

  /** Under trust, a request is charged to the address after the last comma of the last
      line, blanks aside; to the peer when that is no address. */
  lemma LastEntryIsCharged(written: seq<HeaderValue>, front: HeaderValue, entry: string, peer: Ip,
                           parse: string -> Option<Ip>)
    requires ValidIp(peer) && forall s :: parse(s).Some? ==> ValidIp(parse(s).value)
    requires Visible(front) && VisibleText(entry) && ',' !in entry
    ensures var charged := parse(Trim(entry)); var key := BucketKey(if charged.Some? then charged.value else peer);
      && ClientKey(true, written + [front + [0x2C] + ToBytes(entry)], peer, parse) == key
      && ClientKey(true, written + [ToBytes(entry)], peer, parse) == key
  {
    var value := ToBytes(entry);
    TextReadsBack(entry);
    assert COMMA !in value by {
      forall i | 0 <= i < |value| ensures value[i] != COMMA {
        assert entry[i] != ',';
      }
    }
    AppendedReads(front, value);
    LastLineDecides(true, written, Appended(front, value), peer, parse);
    LastLineDecides(true, written, value, peer, parse);
    assert LastIndexOf(entry, ',') == |entry|;
    assert LastEntry([value]) == Some(Trim(entry));
  }

  lemma LastLineDecides(trusted: bool, written: seq<HeaderValue>, line: HeaderValue, peer: Ip, parse: string -> Option<Ip>)
    requires ValidIp(peer) && forall s :: parse(s).Some? ==> ValidIp(parse(s).value)
    ensures ClientKey(trusted, written + [line], peer, parse) == ClientKey(trusted, [line], peer, parse)
  {
  }

  /** Whether what a client writes in front of the proxy's own entry, in earlier lines or
      earlier in the last line, leaves its budget alone: exactly when forwarded addresses
      are not trusted, the text in front is visible ASCII, or the proxy's entry gives the
      peer's budget anyway. */
  lemma ClientTextIsIgnoredIff(trusted: bool, written: seq<HeaderValue>, front: HeaderValue, entry: HeaderValue, peer: Ip,
                               parse: string -> Option<Ip>)
    requires ValidIp(peer) && forall s :: parse(s).Some? ==> ValidIp(parse(s).value)
    requires COMMA !in entry
    ensures ClientKey(trusted, written + [Appended(front, entry)], peer, parse) == ClientKey(trusted, [entry], peer, parse)
      <==> !trusted || Visible(front) || ClientKey(trusted, [entry], peer, parse) == BucketKey(peer)
  {
    LastLineDecides(trusted, written, Appended(front, entry), peer, parse);
    AppendedReads(front, entry);
  }

  /** One byte outside visible ASCII moves a request from its own budget to the one of the
      proxy that forwards it. */
  lemma ClientByteMovesTheBudget()
    ensures var entry := ToBytes("10.0.0.1"); var (own, proxy) := (V4(0x0A00, 1), V4(0x0A00, 2));
      var parse := s => if s == "10.0.0.1" then Some(own) else None;
      && ClientKey(true, [entry], proxy, parse) == own
      && ClientKey(true, [Appended([0xE9], entry)], proxy, parse) == proxy
  {
    var entry := ToBytes("10.0.0.1");
    TextReadsBack("10.0.0.1");
    assert LastIndexOf("10.0.0.1", ',') == 8;
    TrimNothing("10.0.0.1");
    AppendedReads([0xE9], entry);
    var bad: HeaderValue := [0xE9];
    assert !VisibleByte(bad[0]);
  }
}
