/** The lexical URL splitter: components out of a text, in the shape of RFC 3986. */
module Url {
  import opened Basics
  import opened Strings
  import Decimal

  const MAX_PORT: nat := 0xFFFF

  datatype Authority = Authority(userinfo: Option<string>, host: string, port: Option<nat>)

  datatype Url = Url(scheme: Option<string>, authority: Option<Authority>, path: string,
                     query: Option<string>, fragment: Option<string>)

  datatype UrlError = EmptyUrl | PortOutOfRange

  predicate IsLower(c: char) { 'a' <= c <= 'z' }

  predicate IsAlpha(c: char) { IsLower(c) || 'A' <= c <= 'Z' }

  predicate IsSchemeChar(c: char) { IsAlpha(c) || '0' <= c <= '9' || c == '+' || c == '-' || c == '.' }

  predicate IsScheme(s: string) {
    s != [] && IsAlpha(s[0]) && forall i :: 0 <= i < |s| ==> IsSchemeChar(s[i])
  }

  function LowerChar(c: char): char {
    if 'A' <= c <= 'Z' then (c as int + 32) as char else c
  }

  function Lower(s: string): string {
    seq(|s|, i requires 0 <= i < |s| => LowerChar(s[i]))
  }

  predicate EndsAuthority(c: char) { c == '/' || c == '?' || c == '#' }

  function AuthorityEnd(s: string): (at: nat)
    ensures at <= |s|
    ensures at < |s| ==> EndsAuthority(s[at])
    ensures forall i :: 0 <= i < at ==> !EndsAuthority(s[i])
  {
    if s == [] || EndsAuthority(s[0]) then 0 else 1 + AuthorityEnd(s[1..])
  }

  /** Host and port text; brackets around the host are dropped, and digits after the
      last colon are the port. */
  function SplitHostPort(s: string): (string, Option<string>) {
    if s != [] && s[0] == '[' then
      var rest := s[1..];
      var at := IndexOf(rest, ']');
      if at == |rest| then (s, None)
      else if at + 1 == |rest| then (rest[..at], None)
      else if rest[at + 1] == ':' && Decimal.AllDigits(rest[at + 2..]) then (rest[..at], Some(rest[at + 2..]))
      else (s, None)
    else
      var at := LastIndexOf(s, ':');
      if at < |s| && Decimal.AllDigits(s[at + 1..]) then (s[..at], Some(s[at + 1..])) else (s, None)
  }

  function SplitUserinfo(authority: string): (Option<string>, string) {
    var at := LastIndexOf(authority, '@');
    if at < |authority| then (Some(authority[..at]), authority[at + 1..]) else (None, authority)
  }

  function ReadAuthority(text: string): Result<Authority, UrlError> {
    var (userinfo, hostPort) := SplitUserinfo(text);
    var (host, port) := SplitHostPort(hostPort);
    if port.None? || port.value == "" then Ok(Authority(userinfo, host, None))
    else
      match Decimal.Parse(port.value, MAX_PORT)
      case Some(n) => Ok(Authority(userinfo, host, Some(n)))
      case None => Err(PortOutOfRange)
  }

  /** A scheme before the first colon, and what follows it. */
  function SplitScheme(s: string): (Option<string>, string) {
    var at := IndexOf(s, ':');
    if at < |s| && IsScheme(s[..at]) then (Some(Lower(s[..at])), s[at + 1..]) else (None, s)
  }

  function SplitFragment(s: string): (string, Option<string>) {
    var at := IndexOf(s, '#');
    if at < |s| then (s[..at], Some(s[at + 1..])) else (s, None)
  }

  function SplitQuery(s: string): (string, Option<string>) {
    var at := IndexOf(s, '?');
    if at < |s| then (s[..at], Some(s[at + 1..])) else (s, None)
  }

  /** What follows the authority: path, query and fragment. */
  function ReadTail(scheme: Option<string>, authority: Option<Authority>, s: string): Url {
    var (before, fragment) := SplitFragment(s);
    var (path, query) := SplitQuery(before);
    Url(scheme, authority, path, query, fragment)
  }

  const SLASHES: string := "//"

  /** What follows the scheme. */
  function ReadHierarchy(scheme: Option<string>, rest: string): Result<Url, UrlError> {
    if SLASHES <= rest then
      var after := rest[2..];
      var end := AuthorityEnd(after);
      match ReadAuthority(after[..end])
      case Err(e) => Err(e)
      case Ok(authority) => Ok(ReadTail(scheme, Some(authority), after[end..]))
    else Ok(ReadTail(scheme, None, rest))
  }

  function Parse(value: string): Result<Url, UrlError> {
    if value == "" then Err(EmptyUrl)
    else
      var (scheme, rest) := SplitScheme(value);
      ReadHierarchy(scheme, rest)
  }

  // -------------------------------------------------------------- printing

  function PrintQuery(query: Option<string>): string {
    if query.Some? then "?" + query.value else ""
  }

  function PrintFragment(fragment: Option<string>): string {
    if fragment.Some? then "#" + fragment.value else ""
  }

  function PrintTail(u: Url): string {
    u.path + PrintQuery(u.query) + PrintFragment(u.fragment)
  }

  /** A host with a colon in it is written in brackets. */
  function PrintHost(host: string): string {
    if ':' in host then "[" + host + "]" else host
  }

  function PrintHostPort(a: Authority): string {
    PrintHost(a.host) + if a.port.Some? then ":" + Decimal.Print(a.port.value) else ""
  }

  function PrintAuthority(a: Authority): string {
    (if a.userinfo.Some? then a.userinfo.value + "@" else "") + PrintHostPort(a)
  }

  /** What follows the scheme. */
  function PrintHierarchy(u: Url): string {
    (if u.authority.Some? then SLASHES + PrintAuthority(u.authority.value) else "") + PrintTail(u)
  }

  function Print(u: Url): string {
    (if u.scheme.Some? then u.scheme.value + ":" else "") + PrintHierarchy(u)
  }

  predicate NoEnd(s: string) { forall i :: 0 <= i < |s| ==> !EndsAuthority(s[i]) }

  predicate HostOk(host: string) {
    && NoEnd(host) && '@' !in host && ']' !in host
    && (host != [] && host[0] == '[' ==> ':' in host)
  }

  predicate AuthorityOk(a: Authority) {
    && (a.userinfo.Some? ==> NoEnd(a.userinfo.value))
    && HostOk(a.host)
    && (a.port.Some? ==> a.port.value <= MAX_PORT)
  }

  /** The side conditions under which a component keeps its place. */
  predicate Separable(u: Url) {
    && (u.scheme.Some? ==> IsScheme(u.scheme.value) && Lower(u.scheme.value) == u.scheme.value)
    && (u.authority.Some? ==> AuthorityOk(u.authority.value) && (u.path == "" || u.path[0] == '/'))
    && (u.authority.None? ==> !(SLASHES <= u.path))
    && '?' !in u.path && '#' !in u.path
    && (u.query.Some? ==> '#' !in u.query.value)
    && (u.scheme.None? && u.authority.None? ==> u.path != "" || u.query.Some? || u.fragment.Some?)
    && (u.scheme.None? && u.authority.None? ==> NoSchemeInFront(u.path))
  }

  /** No colon of the path follows what could be a scheme. */
  predicate NoSchemeInFront(path: string) {
    forall i :: 0 <= i < |path| && path[i] == ':' ==> !IsScheme(path[..i])
  }

  lemma TailReads(u: Url)
    requires '?' !in u.path && '#' !in u.path && (u.query.Some? ==> '#' !in u.query.value)
    ensures ReadTail(u.scheme, u.authority, PrintTail(u)) == u
  {
    var before := u.path + PrintQuery(u.query);
    assert SplitFragment(PrintTail(u)) == (before, u.fragment) by {
      assert '#' !in before;
      if u.fragment.Some? {
        IndexIs(PrintTail(u), '#', |before|);
        assert PrintTail(u)[..|before|] == before && PrintTail(u)[|before| + 1..] == u.fragment.value;
      } else {
        assert PrintTail(u) == before;
      }
    }
    if u.query.Some? {
      IndexIs(before, '?', |u.path|);
      assert before[..|u.path|] == u.path && before[|u.path| + 1..] == u.query.value;
    } else {
      assert before == u.path;
    }
  }

  lemma HostPortReads(a: Authority)
    requires AuthorityOk(a)
    ensures SplitHostPort(PrintHostPort(a)) == (a.host, PortText(a.port))
  {
    var port := if a.port.Some? then Decimal.Print(a.port.value) else "";
    if a.port.Some? {
      Decimal.PrintValue(a.port.value);
    }
    if ':' in a.host {
      if a.port.Some? {
        BracketedWithPort(a.host, port);
        assert PrintHostPort(a) == "[" + a.host + "]" + (":" + port);
      } else {
        BracketedAlone(a.host);
        assert PrintHostPort(a) == "[" + a.host + "]";
      }
    } else if a.port.Some? {
      PlainWithPort(a.host, port);
      assert PrintHostPort(a) == a.host + (":" + port);
    } else {
      assert PrintHostPort(a) == a.host;
    }
  }

  lemma PlainWithPort(host: string, port: string)
    requires ':' !in host && (host != [] ==> host[0] != '[') && Decimal.AllDigits(port)
    ensures SplitHostPort(host + (":" + port)) == (host, Some(port))
  {
    var s := host + (":" + port);
    LastColon(s, host, port);
    assert s[0] == if host == [] then ':' else host[0];
    assert s[..|host|] == host && s[|host| + 1..] == port;
  }

  lemma LastColon(s: string, host: string, port: string)
    requires s == host + (":" + port) && Decimal.AllDigits(port)
    ensures LastIndexOf(s, ':') == |host|
  {
    forall i | |host| < i < |s| ensures s[i] != ':' {
      assert s[i] == port[i - |host| - 1];
      assert Decimal.IsDigit(port[i - |host| - 1]);
    }
    LastIndexIs(s, ':', |host|);
  }

  lemma BracketedAlone(host: string)
    requires ']' !in host
    ensures SplitHostPort("[" + host + "]") == (host, None)
  {
    var s := "[" + host + "]";
    assert s[1..] == host + "]";
    IndexIs(s[1..], ']', |host|);
    assert s[1..][..|host|] == host && s[1..][|host| + 1..] == "";
  }

  lemma BracketedWithPort(host: string, port: string)
    requires ']' !in host && Decimal.AllDigits(port)
    ensures SplitHostPort("[" + host + "]" + (":" + port)) == (host, Some(port))
  {
    var s := "[" + host + "]" + (":" + port);
    var inside := host + "]" + (":" + port);
    assert s[1..] == inside;
    IndexIs(inside, ']', |host|);
    assert inside[..|host|] == host && inside[|host| + 1..] == ":" + port;
    assert (":" + port)[1..] == port;
  }

  lemma AuthorityReads(a: Authority)
    requires AuthorityOk(a)
    ensures ReadAuthority(PrintAuthority(a)) == Ok(a)
    ensures NoEnd(PrintAuthority(a))
  {
    PlainHostPort(a);
    AuthorityHasNoEnd(a);
    UserinfoReads(a.userinfo, PrintHostPort(a));
    HostPortReads(a);
    PortReads(a.port);
    PartsRead(PrintAuthority(a), PrintHostPort(a), a);
  }

  function PortText(port: Option<nat>): Option<string> {
    if port.Some? then Some(Decimal.Print(port.value)) else None
  }

  lemma PortReads(port: Option<nat>)
    requires port.Some? ==> port.value <= MAX_PORT
    ensures port.Some? ==> PortText(port).value != "" && Decimal.Parse(PortText(port).value, MAX_PORT) == port
  {
    if port.Some? {
      Decimal.PrintValue(port.value);
      Decimal.ParsePrint(port.value, MAX_PORT);
    }
  }

  lemma PartsRead(text: string, hostPort: string, a: Authority)
    requires SplitUserinfo(text) == (a.userinfo, hostPort) && SplitHostPort(hostPort) == (a.host, PortText(a.port))
    requires a.port.Some? ==> PortText(a.port).value != "" && Decimal.Parse(PortText(a.port).value, MAX_PORT) == a.port
    ensures ReadAuthority(text) == Ok(a)
  {
  }

  lemma AuthorityHasNoEnd(a: Authority)
    requires (a.userinfo.Some? ==> NoEnd(a.userinfo.value)) && NoEnd(PrintHostPort(a))
    ensures NoEnd(PrintAuthority(a))
  {
    if a.userinfo.Some? {
      NoEndJoins(a.userinfo.value, "@");
      NoEndJoins(a.userinfo.value + "@", PrintHostPort(a));
    } else {
      assert PrintAuthority(a) == PrintHostPort(a);
    }
  }

  lemma NoEndJoins(a: string, b: string)
    requires NoEnd(a) && NoEnd(b)
    ensures NoEnd(a + b)
  {
  }

  lemma UserinfoReads(userinfo: Option<string>, hostPort: string)
    requires '@' !in hostPort
    ensures var text := (if userinfo.Some? then userinfo.value + "@" else "") + hostPort;
      SplitUserinfo(text) == (userinfo, hostPort)
  {
    if userinfo.Some? {
      var text := userinfo.value + "@" + hostPort;
      assert forall i :: |userinfo.value| < i < |text| ==> text[i] == hostPort[i - |userinfo.value| - 1];
      LastIndexIs(text, '@', |userinfo.value|);
      assert text[..|userinfo.value|] == userinfo.value && text[|userinfo.value| + 1..] == hostPort;
    } else {
      assert "" + hostPort == hostPort;
      assert LastIndexOf(hostPort, '@') == |hostPort|;
    }
  }

  lemma PlainHostPort(a: Authority)
    requires AuthorityOk(a)
    ensures '@' !in PrintHostPort(a) && NoEnd(PrintHostPort(a))
  {
    var host := PrintHost(a.host);
    PlainHost(a.host);
    if a.port.Some? {
      var port := ":" + Decimal.Print(a.port.value);
      PlainPort(a.port.value);
      NoEndJoins(host, port);
      assert PrintHostPort(a) == host + port;
    } else {
      assert PrintHostPort(a) == host;
    }
  }

  lemma PlainHost(host: string)
    requires HostOk(host)
    ensures '@' !in PrintHost(host) && NoEnd(PrintHost(host))
  {
    if ':' in host {
      NoEndJoins("[", host);
      NoEndJoins("[" + host, "]");
    }
  }

  lemma PlainPort(port: nat)
    ensures '@' !in ":" + Decimal.Print(port) && NoEnd(":" + Decimal.Print(port))
  {
    Decimal.PrintValue(port);
    var digits := Decimal.Print(port);
    forall i | 0 <= i < |digits| ensures digits[i] != '@' && !EndsAuthority(digits[i]) {
      assert Decimal.IsDigit(digits[i]);
    }
    NoEndJoins(":", digits);
  }

  /** Printing then parsing gives the components back. */
  lemma ParsePrint(u: Url)
    requires Separable(u)
    ensures Parse(Print(u)) == Ok(u)
  {
    SchemeReads(u);
    HierarchyReads(u);
    assert Print(u) != "";
  }

  lemma HierarchyReads(u: Url)
    requires Separable(u)
    ensures ReadHierarchy(u.scheme, PrintHierarchy(u)) == Ok(u)
  {
    assert ReadTail(u.scheme, u.authority, PrintTail(u)) == u by { TailReads(u); }
    if u.authority.Some? {
      TailStarts(u);
      AuthorityThenTail(u.scheme, u.authority.value, PrintTail(u));
    } else {
      assert PrintHierarchy(u) == PrintTail(u);
      TailIsNoAuthority(u);
    }
  }

  lemma TailStarts(u: Url)
    requires u.path == "" || u.path[0] == '/'
    ensures PrintTail(u) != [] ==> EndsAuthority(PrintTail(u)[0])
  {
  }

  lemma AuthorityThenTail(scheme: Option<string>, a: Authority, tail: string)
    requires AuthorityOk(a) && (tail != [] ==> EndsAuthority(tail[0]))
    ensures ReadHierarchy(scheme, SLASHES + PrintAuthority(a) + tail) == Ok(ReadTail(scheme, Some(a), tail))
  {
    AuthorityReads(a);
    AfterSlashes(PrintAuthority(a), tail);
    assert SLASHES <= SLASHES + PrintAuthority(a) + tail;
  }

  lemma AfterSlashes(text: string, tail: string)
    requires NoEnd(text) && (tail != [] ==> EndsAuthority(tail[0]))
    ensures var after := (SLASHES + text + tail)[2..]; var end := AuthorityEnd(after);
      after[..end] == text && after[end..] == tail
  {
    assert (SLASHES + text + tail)[2..] == text + tail;
    AuthorityEndIs(text + tail, text, tail);
  }

  lemma SchemeReads(u: Url)
    requires Separable(u)
    ensures SplitScheme(Print(u)) == (u.scheme, PrintHierarchy(u))
  {
    var hierarchy := PrintHierarchy(u);
    if u.scheme.Some? {
      SchemeSplits(u.scheme.value, hierarchy);
    } else {
      assert Print(u) == hierarchy;
      if u.authority.Some? {
        assert hierarchy[0] == '/';
        SlashIsNoScheme(hierarchy);
      } else {
        assert hierarchy == PrintTail(u);
        TailHasNoScheme(u);
      }
    }
  }

  lemma SchemeSplits(scheme: string, rest: string)
    requires IsScheme(scheme) && Lower(scheme) == scheme
    ensures SplitScheme(scheme + ":" + rest) == (Some(scheme), rest)
  {
    var text := scheme + ":" + rest;
    assert forall i :: 0 <= i < |scheme| ==> text[i] == scheme[i] && text[i] != ':';
    IndexIs(text, ':', |scheme|);
    assert text[..|scheme|] == scheme && text[|scheme| + 1..] == rest;
  }

  lemma SlashIsNoScheme(text: string)
    requires text != [] && text[0] == '/'
    ensures SplitScheme(text) == (None, text)
  {
    var at := IndexOf(text, ':');
    assert at > 0 ==> text[..at][0] == '/';
  }

  lemma TailHasNoScheme(u: Url)
    requires NoSchemeInFront(u.path) && '?' !in u.path && '#' !in u.path
    ensures SplitScheme(PrintTail(u)).0.None?
  {
    var tail := PrintTail(u);
    var at := IndexOf(tail, ':');
    if at < |u.path| {
      assert tail[..at] == u.path[..at] && tail[at] == u.path[at];
    } else if |u.path| < |tail| {
      assert tail[|u.path|] == '?' || tail[|u.path|] == '#';
      assert at > |u.path| ==> tail[..at][|u.path|] == tail[|u.path|];
    }
  }

  lemma AuthorityEndIs(s: string, a: string, tail: string)
    requires s == a + tail && NoEnd(a) && (tail != [] ==> EndsAuthority(tail[0]))
    ensures AuthorityEnd(s) == |a| && s[..|a|] == a && s[|a|..] == tail
  {
    assert forall i :: 0 <= i < |a| ==> s[i] == a[i];
    assert tail != [] ==> s[|a|] == tail[0];
  }

  lemma TailIsNoAuthority(u: Url)
    requires !(SLASHES <= u.path) && '?' !in u.path && '#' !in u.path
    ensures !(SLASHES <= PrintTail(u))
  {
    var t := PrintTail(u);
    if |u.path| >= 2 {
      assert t[0] == u.path[0] && t[1] == u.path[1];
    } else if |t| > |u.path| {
      assert t[|u.path|] == '?' || t[|u.path|] == '#';
    }
  }

  /** How an accepted text is put together: the scheme up to letter case, the
      authority's own text, and then path, query and fragment as they are. */
  ghost predicate Spells(value: string, scheme: string, authority: string, u: Url) {
    value == scheme + authority + PrintTail(u) && SpelledScheme(scheme, u) && SpelledAuthority(authority, u)
  }

  ghost predicate SpelledScheme(scheme: string, u: Url) {
    match u.scheme
    case None => scheme == ""
    case Some(s) => scheme != "" && scheme[|scheme| - 1] == ':' && Lower(scheme[..|scheme| - 1]) == s
  }

  ghost predicate SpelledAuthority(authority: string, u: Url) {
    match u.authority
    case None => authority == ""
    case Some(a) => SLASHES <= authority && ReadAuthority(authority[2..]) == Ok(a)
  }

  /** Nothing of an accepted text is lost, and nothing after the authority is changed. */
  lemma AcceptedIsSpelledOut(value: string)
    requires Parse(value).Ok?
    ensures exists scheme, authority :: Spells(value, scheme, authority, Parse(value).value)
  {
    var (scheme, rest) := SplitScheme(value);
    var prefix := SchemeSpelled(value);
    var authority := HierarchySpelled(scheme, rest);
    PartsSpell(value, prefix, rest, authority, Parse(value).value);
  }

  lemma PartsSpell(value: string, prefix: string, rest: string, authority: string, u: Url)
    requires value == prefix + rest && rest == authority + PrintTail(u)
    requires SpelledScheme(prefix, u) && SpelledAuthority(authority, u)
    ensures Spells(value, prefix, authority, u)
  {
    assert prefix + (authority + PrintTail(u)) == prefix + authority + PrintTail(u);
  }

  lemma SchemeSpelled(value: string) returns (prefix: string)
    ensures value == prefix + SplitScheme(value).1
    ensures match SplitScheme(value).0
      case None => prefix == ""
      case Some(s) => prefix != "" && prefix[|prefix| - 1] == ':' && Lower(prefix[..|prefix| - 1]) == s
  {
    var at := IndexOf(value, ':');
    if SplitScheme(value).0.Some? {
      prefix := value[..at + 1];
      assert prefix[..at] == value[..at];
    } else {
      prefix := "";
    }
  }

  lemma DropsAdd(s: string, n: nat, m: nat)
    requires n + m <= |s|
    ensures s[n..][..m] == s[..n + m][n..] && s[n..][m..] == s[n + m..]
  {
  }

  lemma HierarchySpelled(scheme: Option<string>, rest: string) returns (authority: string)
    requires ReadHierarchy(scheme, rest).Ok?
    ensures var u := ReadHierarchy(scheme, rest).value;
      u.scheme == scheme && rest == authority + PrintTail(u) && SpelledAuthority(authority, u)
  {
    var u := ReadHierarchy(scheme, rest).value;
    if SLASHES <= rest {
      var end := AuthorityEnd(rest[2..]);
      authority := rest[..end + 2];
      TailSpelled(scheme, u.authority, rest[2..][end..]);
      DropsAdd(rest, 2, end);
    } else {
      authority := "";
      TailSpelled(scheme, None, rest);
    }
  }

  lemma TailSpelled(scheme: Option<string>, authority: Option<Authority>, s: string)
    ensures PrintTail(ReadTail(scheme, authority, s)) == s
  {
    var (before, fragment) := SplitFragment(s);
    FragmentSpelled(s);
    QuerySpelled(before);
    assert PrintTail(ReadTail(scheme, authority, s)) == before + PrintFragment(fragment);
  }

  lemma FragmentSpelled(s: string)
    ensures SplitFragment(s).0 + PrintFragment(SplitFragment(s).1) == s
  {
    var at := IndexOf(s, '#');
    assert at < |s| ==> s == s[..at] + ("#" + s[at + 1..]);
  }

  lemma QuerySpelled(s: string)
    ensures SplitQuery(s).0 + PrintQuery(SplitQuery(s).1) == s
  {
    var at := IndexOf(s, '?');
    assert at < |s| ==> s == s[..at] + ("?" + s[at + 1..]);
  }
}
