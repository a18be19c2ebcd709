/** Which texts the splitter refuses, and what it reads in an authority. */
module UrlText {
  import opened Basics
  import opened Strings
  import opened Url
  import Decimal

  /** Capital letters are made small, 32 further on, and nothing else is changed. */
  lemma LowerMeans(s: string)
    ensures |Lower(s)| == |s|
    ensures forall i :: 0 <= i < |s| ==>
      if 65 <= s[i] as int <= 90 then Lower(s)[i] as int == s[i] as int + 32 else Lower(s)[i] == s[i]
  {
  }

  /** A scheme is a letter and then letters, digits, `+`, `-` and `.`. */
  lemma SchemeMeans(s: string)
    ensures IsScheme(s) <==>
      && s != ""
      && (65 <= s[0] as int <= 90 || 97 <= s[0] as int <= 122)
      && forall i :: 0 <= i < |s| ==>
           || 65 <= s[i] as int <= 90
           || 97 <= s[i] as int <= 122
           || 48 <= s[i] as int <= 57
           || s[i] in "+-."
  {
    assert s == "" || s[0] == s[0];
  }

  /** What stands before the first colon is the scheme, if it can be one. */
  lemma SchemeIsBeforeColon(value: string, at: nat)
    requires at < |value| && value[at] == ':' && ':' !in value[..at]
    ensures SplitScheme(value) ==
      if IsScheme(value[..at]) then (Some(Lower(value[..at])), value[at + 1..]) else (None, value)
  {
    assert forall i :: 0 <= i < at ==> value[..at][i] == value[i];
    IndexIs(value, ':', at);
  }

  // ------------------------------------------------------------ host and port

  /** A host in brackets or not, and the text of its port. */
  ghost predicate HostAndPort(text: string, host: string, port: string) {
    && Decimal.AllDigits(port)
    && text == host + (":" + port)
    && (host != "" && host[0] == '[' ==> host[|host| - 1] == ']' && ']' !in host[..|host| - 1])
  }

  function WithoutBrackets(host: string): string {
    if host != "" && host[0] == '[' && host[|host| - 1] == ']' && |host| >= 2 then host[1..|host| - 1] else host
  }

  lemma DigitsAreNoColon(port: string)
    requires Decimal.AllDigits(port)
    ensures ':' !in port && '@' !in port && NoEnd(port)
  {
    forall i | 0 <= i < |port| ensures port[i] != ':' && port[i] != '@' && !EndsAuthority(port[i]) {
      assert Decimal.IsDigit(port[i]);
    }
  }

  /** Digits behind the last colon, outside the brackets, are the port. */
  lemma PortIsRead(text: string, host: string, port: string)
    requires HostAndPort(text, host, port)
    ensures SplitHostPort(text) == (WithoutBrackets(host), Some(port))
  {
    DigitsAreNoColon(port);
    if host != "" && host[0] == '[' {
      var inside := host[1..|host| - 1];
      assert host == "[" + inside + "]";
      assert forall i :: 0 <= i < |inside| ==> inside[i] == host[..|host| - 1][i + 1];
      BracketedWithPort(inside, port);
    } else {
      LastColon(text, host, port);
      assert text[..|host|] == host && text[|host| + 1..] == port;
      assert text[0] == if host == "" then ':' else host[0];
    }
  }

  lemma ReadInBrackets(text: string)
    requires text != "" && text[0] == '[' && SplitHostPort(text).1.Some?
    ensures var port := SplitHostPort(text).1.value;
      |port| < |text| && HostAndPort(text, text[..|text| - |port| - 1], port)
  {
    var at := IndexOf(text[1..], ']');
    var host := text[..at + 2];
    assert text == host + (":" + text[at + 3..]);
    assert host[at + 1] == ']';
    var front := host[..|host| - 1];
    forall i | 0 <= i < |front| ensures front[i] != ']' {
      assert i > 0 ==> text[1..][i - 1] == text[i];
    }
  }

  lemma ReadInTheOpen(text: string)
    requires (text == "" || text[0] != '[') && SplitHostPort(text).1.Some?
    ensures var port := SplitHostPort(text).1.value;
      |port| < |text| && HostAndPort(text, text[..|text| - |port| - 1], port)
  {
    var at := LastIndexOf(text, ':');
    assert text == text[..at] + (":" + text[at + 1..]);
    assert at > 0 ==> text[..at][0] == text[0];
  }

  /** A port that is read is one. */
  lemma ReadPortIsThere(text: string)
    requires SplitHostPort(text).1.Some?
    ensures var port := SplitHostPort(text).1.value;
      |port| < |text| && HostAndPort(text, text[..|text| - |port| - 1], port)
  {
    if text != "" && text[0] == '[' {
      ReadInBrackets(text);
    } else {
      ReadInTheOpen(text);
    }
  }

  /** Without one, the host is the whole text, or what its brackets enclose. */
  lemma NoPortIsRead(text: string)
    requires SplitHostPort(text).1.None?
    ensures SplitHostPort(text).0 == text || text == "[" + SplitHostPort(text).0 + "]"
    ensures forall host, port :: !HostAndPort(text, host, port)
  {
    if text != "" && text[0] == '[' && SplitHostPort(text).0 != text {
      var at := IndexOf(text[1..], ']');
      assert text == "[" + text[1..][..at] + "]";
    }
    forall host, port | HostAndPort(text, host, port) ensures false {
      PortIsRead(text, host, port);
    }
  }

  /** The user is what stands before the last `@`. */
  lemma UserIsRead(user: string, hostPort: string)
    requires '@' !in hostPort && (user == "" || user[|user| - 1] == '@')
    ensures SplitUserinfo(user + hostPort) == (if user == "" then None else Some(user[..|user| - 1]), hostPort)
  {
    if user == "" {
      UserinfoReads(None, hostPort);
      assert user + hostPort == "" + hostPort;
    } else {
      UserinfoReads(Some(user[..|user| - 1]), hostPort);
      assert user == user[..|user| - 1] + "@";
    }
  }

  lemma ReadUserIsThere(text: string) returns (user: string)
    ensures text == user + SplitUserinfo(text).1 && '@' !in SplitUserinfo(text).1
    ensures user == "" || user[|user| - 1] == '@'
    ensures user == if SplitUserinfo(text).0.Some? then SplitUserinfo(text).0.value + "@" else ""
  {
    var at := LastIndexOf(text, '@');
    if at < |text| {
      user := text[..at + 1];
      assert user == text[..at] + "@" && text == user + text[at + 1..];
    } else {
      user := "";
      assert text == "" + text;
    }
  }

  // ---------------------------------------------------------------- refusals

  lemma PortFits(digits: string)
    requires Decimal.AllDigits(digits) && digits != ""
    ensures Decimal.Parse(digits, MAX_PORT) ==
      if Decimal.Value(digits) <= 65_535 then Some(Decimal.Value(digits)) else None
  {
    assert Decimal.IsDigit(digits[0]);
    Decimal.ReadDigitsIff(digits, MAX_PORT);
  }

  /** `[user@]host:digits` with a number over 65535. */
  ghost predicate PortTooLarge(authority: string, user: string, host: string, digits: string) {
    && authority == user + (host + (":" + digits))
    && (user == "" || user[|user| - 1] == '@') && '@' !in host
    && HostAndPort(host + (":" + digits), host, digits)
    && Decimal.Value(digits) > 65_535
  }

  lemma TooLargeIsRefused(authority: string, user: string, host: string, digits: string)
    requires PortTooLarge(authority, user, host, digits)
    ensures ReadAuthority(authority) == Err(PortOutOfRange)
  {
    DigitsAreNoColon(digits);
    UserIsRead(user, host + (":" + digits));
    PortIsRead(host + (":" + digits), host, digits);
    PortFits(digits);
  }

  lemma RefusedIsTooLarge(authority: string) returns (user: string, host: string, digits: string)
    requires ReadAuthority(authority).Err?
    ensures ReadAuthority(authority) == Err(PortOutOfRange) && PortTooLarge(authority, user, host, digits)
  {
    user := ReadUserIsThere(authority);
    var hostPort := SplitUserinfo(authority).1;
    digits := SplitHostPort(hostPort).1.value;
    ReadPortIsThere(hostPort);
    host := hostPort[..|hostPort| - |digits| - 1];
    PortFits(digits);
  }

  /** A text is `[scheme:]//authority` and then nothing, or a tail that starts with `/`,
      `?` or `#`. */
  ghost predicate HasAuthority(value: string, scheme: string, authority: string, tail: string) {
    && value == scheme + (SLASHES + authority + tail)
    && (scheme == "" || (scheme[|scheme| - 1] == ':' && IsScheme(scheme[..|scheme| - 1])))
    && NoEnd(authority) && (tail == "" || tail[0] == '/' || tail[0] == '?' || tail[0] == '#')
  }

  lemma SchemeIsPassed(value: string, scheme: string, authority: string, tail: string)
    requires HasAuthority(value, scheme, authority, tail)
    ensures value != "" && SplitScheme(value).1 == SLASHES + authority + tail
  {
    var rest := SLASHES + authority + tail;
    if scheme == "" {
      assert value == rest && value[0] == '/';
      SlashIsNoScheme(value);
    } else {
      var at := |scheme| - 1;
      assert value[..at] == scheme[..at] && value[at] == ':' && value[at + 1..] == rest;
      SchemeIsBeforeColon(value, at);
    }
  }

  lemma AuthorityIsReached(value: string, scheme: string, authority: string, tail: string)
    requires HasAuthority(value, scheme, authority, tail)
    ensures Parse(value).Err? <==> ReadAuthority(authority).Err?
    ensures ReadAuthority(authority).Err? ==> Parse(value).error == ReadAuthority(authority).error
  {
    SchemeIsPassed(value, scheme, authority, tail);
    AfterSlashes(authority, tail);
    assert SLASHES <= SLASHES + authority + tail;
  }

  lemma SlashesFirst(rest: string, authority: string, tail: string)
    requires SLASHES <= rest && rest[2..] == authority + tail
    ensures rest == SLASHES + authority + tail
  {
    assert rest == rest[..2] + rest[2..] && rest[..2] == SLASHES;
  }

  lemma AuthorityIsThere(value: string) returns (scheme: string, authority: string, tail: string)
    requires value != "" && SLASHES <= SplitScheme(value).1
    ensures HasAuthority(value, scheme, authority, tail)
  {
    scheme := SchemeSpelled(value);
    var rest := SplitScheme(value).1;
    var end := AuthorityEnd(rest[2..]);
    authority, tail := rest[2..][..end], rest[2..][end..];
    assert rest == SLASHES + authority + tail by { SlashesFirst(rest, authority, tail); }
    SchemeTextIsOne(value, scheme);
  }

  lemma SchemeTextIsOne(value: string, scheme: string)
    requires value == scheme + SplitScheme(value).1
    ensures scheme == "" || (scheme[|scheme| - 1] == ':' && IsScheme(scheme[..|scheme| - 1]))
  {
    var at := IndexOf(value, ':');
    if at < |value| && IsScheme(value[..at]) {
      assert |scheme| == at + 1 && scheme == value[..at + 1];
      assert scheme[..at] == value[..at];
    } else {
      assert |scheme| == 0;
    }
  }

  ghost predicate HasPortTooLarge(value: string) {
    exists scheme, authority, tail, user, host, digits ::
      HasAuthority(value, scheme, authority, tail) && PortTooLarge(authority, user, host, digits)
  }

  /** A text is refused exactly when it is empty, or has a port over 65535. */
  lemma RefusedIff(value: string)
    ensures Parse(value) == Err(EmptyUrl) <==> value == ""
    ensures Parse(value) == Err(PortOutOfRange) <==> HasPortTooLarge(value)
  {
    if Parse(value).Err? && value != "" {
      var scheme, authority, tail := AuthorityIsThere(value);
      AuthorityIsReached(value, scheme, authority, tail);
      var user, host, digits := RefusedIsTooLarge(authority);
    }
    if HasPortTooLarge(value) {
      var scheme, authority, tail, user, host, digits :|
        HasAuthority(value, scheme, authority, tail) && PortTooLarge(authority, user, host, digits);
      TooLargeIsRefused(authority, user, host, digits);
      AuthorityIsReached(value, scheme, authority, tail);
    }
  }

  // --------------------------------------------------------------- acceptance

  /** The three parts of an authority, each as its components are written. */
  ghost predicate Written(text: string, a: Authority, user: string, host: string, port: string) {
    && text == user + (host + port) && '@' !in host + port
    && user == (if a.userinfo.Some? then a.userinfo.value + "@" else "")
    && (host == a.host || host == "[" + a.host + "]")
    && (a.port.None? ==> port == "" || port == ":")
    && (a.port.Some? ==>
         && |port| > 1 && port[0] == ':' && Decimal.AllDigits(port[1..])
         && Decimal.Value(port[1..]) == a.port.value <= 65_535)
  }

  /** A host and a port read together, as they are written. */
  lemma HostPortIsWritten(text: string) returns (host: string, port: string)
    ensures text == host + port
    ensures var (inside, digits) := SplitHostPort(text);
      && (host == inside || host == "[" + inside + "]")
      && (digits.None? ==> port == "")
      && (digits.Some? ==> port == ":" + digits.value && Decimal.AllDigits(digits.value))
  {
    if SplitHostPort(text).1.Some? {
      var digits := SplitHostPort(text).1.value;
      ReadPortIsThere(text);
      host, port := text[..|text| - |digits| - 1], ":" + digits;
      PortIsRead(text, host, digits);
      BracketsOrNot(host);
    } else {
      NoPortIsRead(text);
      host, port := text, "";
      assert host + port == text;
    }
  }

  /** An accepted authority is its user, its host with or without brackets, and its
      port's number, one after another and nothing else. */
  lemma AuthorityIsWritten(text: string) returns (user: string, host: string, port: string)
    requires ReadAuthority(text).Ok?
    ensures Written(text, ReadAuthority(text).value, user, host, port)
  {
    user := ReadUserIsThere(text);
    var hostPort := SplitUserinfo(text).1;
    host, port := HostPortIsWritten(hostPort);
    var digits := SplitHostPort(hostPort).1;
    if digits.Some? && digits.value != "" {
      PortFits(digits.value);
      assert port[1..] == digits.value;
    }
  }

  ghost predicate SpelledByParts(value: string, scheme: string, user: string, host: string, port: string, u: Url) {
    && SpelledScheme(scheme, u)
    && match u.authority
       case None => value == scheme + PrintTail(u)
       case Some(a) =>
         value == scheme + (SLASHES + (user + (host + port))) + PrintTail(u)
         && Written(user + (host + port), a, user, host, port)
  }

  /** An accepted text is its scheme up to case, two slashes and the three parts of its
      authority if it has one, and then path, query and fragment as they are. */
  lemma AcceptedIsWritten(value: string)
    requires Parse(value).Ok?
    ensures exists scheme, user, host, port :: SpelledByParts(value, scheme, user, host, port, Parse(value).value)
  {
    AcceptedIsSpelledOut(value);
    var u := Parse(value).value;
    var scheme, authority :| Spells(value, scheme, authority, u);
    if u.authority.Some? {
      var user, host, port := AuthorityIsWritten(authority[2..]);
      assert authority == SLASHES + (user + (host + port));
      assert SpelledByParts(value, scheme, user, host, port, u);
    } else {
      assert scheme + "" == scheme;
      assert SpelledByParts(value, scheme, "", "", "", u);
    }
  }

  lemma BracketsOrNot(host: string)
    ensures host == WithoutBrackets(host) || host == "[" + WithoutBrackets(host) + "]"
  {
  }
}
