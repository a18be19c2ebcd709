/** `Range` and `If-Range`, resolved against a representation of `len` bytes. */
module Range {
  import opened Basics
  import opened Headers
  import opened Strings
  import Decimal

  datatype Resolved = Full | Partial(start: nat, end: nat) | Unsatisfiable

  const UNIT: string := "bytes="

  /** The two texts around the first dash of a single byte range. */
  function Fields(value: string): Option<(string, string)> {
    var value := Trim(value);
    if !(UNIT <= value) then None
    else
      var spec := value[|UNIT|..];
      if |Split(spec, ',')| != 1 then None
      else
        var first := Trim(Split(spec, ',')[0]);
        var dash := IndexOf(first, '-');
        if dash == |first| then None else Some((Trim(first[..dash]), Trim(first[dash + 1..])))
  }

  /** One side of the dash: absent, a 64-bit number, or anything else. */
  datatype Field = Absent | Number(n: nat) | Malformed

  function ReadField(s: string): Field {
    if s == "" then Absent
    else
      match Decimal.Parse(s, U64_MAX)
      case Some(n) => Number(n)
      case None => Malformed
  }

  /** An empty representation can satisfy nothing, however the range is spelled. */
  function Decide(start: Field, end: Field, len: nat): Resolved {
    if len == 0 then Unsatisfiable
    else
      var last := len - 1;
      match (start, end)
      case (Absent, Number(suffix)) =>
        if suffix == 0 then Unsatisfiable else Partial(if suffix > len then 0 else len - suffix, last)
      case (Number(from), Absent) => if from <= last then Partial(from, last) else Unsatisfiable
      case (Number(from), Number(to)) =>
        if from <= to && from <= last then Partial(from, if to < last then to else last) else Unsatisfiable
      case _ => Full
  }

  function Parse(value: string, len: nat): Resolved {
    match Fields(value)
    case None => Full
    case Some((start, end)) => Decide(ReadField(start), ReadField(end), len)
  }

  // ------------------------------------------------------------- meaning

  /** What a header asks for, whatever the length. */
  datatype Ask = Last(n: nat) | From(start: nat) | Span(start: nat, end: nat)

  function AskedBy(start: Field, end: Field): Option<Ask> {
    match (start, end)
    case (Absent, Number(n)) => Some(Last(n))
    case (Number(from), Absent) => Some(From(from))
    case (Number(from), Number(to)) => Some(Span(from, to))
    case _ => None
  }

  function Asked(value: string): Option<Ask> {
    match Fields(value)
    case None => None
    case Some((start, end)) => AskedBy(ReadField(start), ReadField(end))
  }

  /** The byte positions asked for that exist. */
  predicate Wants(ask: Ask, len: nat, i: nat) {
    i < len &&
    match ask
    case Last(n) => i + n >= len
    case From(start) => start <= i
    case Span(start, end) => start <= i <= end
  }

  ghost predicate ExactlyWanted(r: Resolved, ask: Ask, len: nat) {
    match r
    case Partial(start, end) => start <= end < len && forall i: nat :: start <= i <= end <==> Wants(ask, len, i)
    case Unsatisfiable => forall i: nat :: !Wants(ask, len, i)
    case Full => false
  }

  lemma DecideMeans(start: Field, end: Field, len: nat)
    ensures AskedBy(start, end).Some? ==> ExactlyWanted(Decide(start, end, len), AskedBy(start, end).value, len)
    ensures AskedBy(start, end).None? ==> Decide(start, end, len) == if len == 0 then Unsatisfiable else Full
  {
  }

  /** For every header text and every length: a range that is understood is answered
      with exactly the wanted positions, or is unsatisfiable when there are none; one
      that is not is answered in full, except that a well-shaped range of an empty
      representation is unsatisfiable even when its numbers make no sense. */
  lemma ParseMeans(value: string, len: nat)
    ensures Asked(value).Some? ==> ExactlyWanted(Parse(value, len), Asked(value).value, len)
    ensures Asked(value).None? ==>
      Parse(value, len) == if len == 0 && Fields(value).Some? then Unsatisfiable else Full
  {
    if Fields(value).Some? {
      var (start, end) := Fields(value).value;
      DecideMeans(ReadField(start), ReadField(end), len);
    }
  }

  /** What is served for each form of range, in numbers. */
  lemma AskResolves(value: string, len: nat)
    requires Asked(value).Some?
    ensures Parse(value, len) == match Asked(value).value
      case Last(n) =>
        if len == 0 || n == 0 then Unsatisfiable else Partial(if n < len then len - n else 0, len - 1)
      case From(start) =>
        if start < len then Partial(start, len - 1) else Unsatisfiable
      case Span(start, end) =>
        if start <= end && start < len then Partial(start, if end < len then end else len - 1) else Unsatisfiable
  {
  }

  function PrintAsk(ask: Ask): string {
    UNIT +
    match ask
    case Last(n) => "-" + Decimal.Print(n)
    case From(start) => Decimal.Print(start) + "-"
    case Span(start, end) => Decimal.Print(start) + "-" + Decimal.Print(end)
  }

  /** The text of each form of range. */
  lemma PrintedIs(n: nat, m: nat)
    ensures PrintAsk(Last(n)) == "bytes=-" + Decimal.Print(n)
    ensures PrintAsk(From(n)) == "bytes=" + Decimal.Print(n) + "-"
    ensures PrintAsk(Span(n, m)) == "bytes=" + Decimal.Print(n) + "-" + Decimal.Print(m)
  {
    assert UNIT + ("-" + Decimal.Print(n)) == "bytes=-" + Decimal.Print(n);
    assert UNIT + (Decimal.Print(n) + "-") == "bytes=" + Decimal.Print(n) + "-";
    assert UNIT + (Decimal.Print(n) + "-" + Decimal.Print(m)) == "bytes=" + Decimal.Print(n) + "-" + Decimal.Print(m);
  }

  predicate Fits(ask: Ask) {
    match ask
    case Last(n) => n <= U64_MAX
    case From(start) => start <= U64_MAX
    case Span(start, end) => start <= U64_MAX && end <= U64_MAX
  }

  lemma FieldsOf(a: string, b: string)
    requires Decimal.AllDigits(a) && Decimal.AllDigits(b)
    ensures Fields(UNIT + (a + "-" + b)) == Some((a, b))
  {
    var spec := a + "-" + b;
    DigitsAndDash(a, b);
    Unwrapped(spec);
    assert Trim(a) == a by { TrimNothing(a); }
    assert Trim(b) == b by { TrimNothing(b); }
    assert IndexOf(spec, '-') == |a| by { IndexIs(spec, '-', |a|); }
    assert spec[..|a|] == a && spec[|a| + 1..] == b;
  }

  predicate Plain(c: char) { c == '-' || '0' <= c <= '9' }

  /** A text of digits and dashes comes through the unit, the commas and the blanks. */
  lemma Unwrapped(spec: string)
    requires spec != [] && forall i :: 0 <= i < |spec| ==> Plain(spec[i])
    ensures Trim(UNIT + spec) == UNIT + spec && (UNIT + spec)[|UNIT|..] == spec
    ensures Split(spec, ',') == [spec] && Trim(spec) == spec
  {
    assert Trim(UNIT + spec) == UNIT + spec by { UnitTrims(spec, UNIT + spec); }
    assert Trim(spec) == spec by { NothingToTrim(spec); }
    assert Split(spec, ',') == [spec] by { OnePiece(spec); }
  }

  lemma UnitTrims(spec: string, value: string)
    requires spec != [] && Plain(spec[|spec| - 1]) && value == UNIT + spec
    ensures Trim(value) == value
  {
    assert value[0] == 'b' && value[|value| - 1] == spec[|spec| - 1];
    NothingToTrim(value);
  }

  lemma NothingToTrim(s: string)
    requires s != [] && !IsSpace(s[0]) && !IsSpace(s[|s| - 1])
    ensures Trim(s) == s
  {
    TrimNothing(s);
  }

  lemma OnePiece(spec: string)
    requires ',' !in spec
    ensures Split(spec, ',') == [spec]
  {
    IndexIs(spec, ',', |spec|);
  }

  lemma DigitsAndDash(a: string, b: string)
    requires Decimal.AllDigits(a) && Decimal.AllDigits(b)
    ensures var s := a + "-" + b;
      s[|a|] == '-' && forall i :: 0 <= i < |s| ==> Plain(s[i]) && (i != |a| ==> s[i] != '-')
  {
    var s := a + "-" + b;
    forall i | 0 <= i < |s| ensures Plain(s[i]) && (i != |a| ==> s[i] != '-') {
      if i < |a| {
        assert s[i] == a[i];
      } else if i > |a| {
        assert s[i] == b[i - |a| - 1];
      }
    }
  }

  function Side(n: nat): Field { if n <= U64_MAX then Number(n) else Malformed }

  lemma FieldOfNumber(n: nat)
    ensures Decimal.AllDigits(Decimal.Print(n))
    ensures ReadField(Decimal.Print(n)) == Side(n)
  {
    Decimal.PrintValue(n);
    Decimal.ParsePrint(n, U64_MAX);
  }

  lemma SidesAsked(value: string, a: string, b: string, start: Field, end: Field)
    requires Decimal.AllDigits(a) && Decimal.AllDigits(b) && value == UNIT + (a + "-" + b)
    requires ReadField(a) == start && ReadField(b) == end
    ensures Asked(value) == AskedBy(start, end)
  {
    FieldsOf(a, b);
  }

  /** A printed request is understood as itself exactly when its numbers fit in 64 bits. */
  lemma AskedPrint(ask: Ask)
    ensures Asked(PrintAsk(ask)) == if Fits(ask) then Some(ask) else None
  {
    var value := PrintAsk(ask);
    match ask
    case Last(n) =>
      FieldOfNumber(n);
      assert value == UNIT + ("" + "-" + Decimal.Print(n));
      SidesAsked(value, "", Decimal.Print(n), Absent, Side(n));
    case From(start) =>
      FieldOfNumber(start);
      assert value == UNIT + (Decimal.Print(start) + "-" + "");
      SidesAsked(value, Decimal.Print(start), "", Side(start), Absent);
    case Span(start, end) =>
      FieldOfNumber(start);
      FieldOfNumber(end);
      SidesAsked(value, Decimal.Print(start), Decimal.Print(end), Side(start), Side(end));
  }

  /** A span inside the representation resolves to itself. */
  lemma SpanResolves(start: nat, end: nat, len: nat)
    requires start <= end < len <= U64_MAX
    ensures Parse(PrintAsk(Span(start, end)), len) == Partial(start, end)
  {
    var header := PrintAsk(Span(start, end));
    AskedPrint(Span(start, end));
    ParseMeans(header, len);
    SameSpan(Parse(header, len), start, end, len);
  }

  lemma SameSpan(r: Resolved, start: nat, end: nat, len: nat)
    requires start <= end < len && ExactlyWanted(r, Span(start, end), len)
    ensures r == Partial(start, end)
  {
    assert Wants(Span(start, end), len, start) && Wants(Span(start, end), len, end);
    if r.Partial? {
      assert Wants(Span(start, end), len, r.start) && Wants(Span(start, end), len, r.end);
    }
  }

  /** The span of any partial answer is counted without overflow, and asking for it
      again gives it again. */
  lemma PartialIsStable(value: string, len: nat)
    requires len <= U64_MAX && Parse(value, len).Partial?
    ensures var Partial(start, end) := Parse(value, len);
      1 <= end - start + 1 <= len && Parse(PrintAsk(Span(start, end)), len) == Partial(start, end)
  {
    ParseMeans(value, len);
    var r := Parse(value, len);
    SpanResolves(r.start, r.end, len);
  }

  // ------------------------------------------------------------ If-Range

  /** Instants in nanoseconds since the epoch. */
  type SystemTime = int

  function Secs(t: SystemTime): nat { if t < 0 then 0 else t / NANOS }

  /** Whether a validator is current: an entity tag as text, a date to the second. */
  predicate Current(text: string, etag: string, modified: Option<SystemTime>, parseDate: string -> Option<SystemTime>) {
    var value := Trim(text);
    if "\"" <= value || "W/" <= value then value == etag
    else
      match (parseDate(value), modified)
      case (Some(since), Some(at)) => Secs(at) == Secs(since)
      case _ => false
  }

  /** Whether the range may be served. A validator that is not visible ASCII counts as none. */
  predicate IfRangeMatches(ifRange: Option<HeaderValue>, etag: string, modified: Option<SystemTime>,
                           parseDate: string -> Option<SystemTime>)
  {
    match ifRange
    case None => true
    case Some(value) => ToStr(value).None? || Current(ToStr(value).value, etag, modified, parseDate)
  }

  function Resolve(range: Option<HeaderValue>, ifRange: Option<HeaderValue>, len: nat, etag: string,
                   modified: Option<SystemTime>, parseDate: string -> Option<SystemTime>): Resolved
  {
    if range.None? || ToStr(range.value).None? || !IfRangeMatches(ifRange, etag, modified, parseDate) then Full
    else Parse(ToStr(range.value).value, len)
  }

  /** Exactly when a range may be served beside a validator: there is none, or none
      that is text; or a tag that is the file's, or a date in the file's second. */
  lemma IfRangeMatchesIff(ifRange: Option<HeaderValue>, etag: string, modified: Option<SystemTime>,
                          parseDate: string -> Option<SystemTime>)
    ensures IfRangeMatches(ifRange, etag, modified, parseDate) <==>
      || ifRange.None?
      || ToStr(ifRange.value).None?
      || var value := Trim(ToStr(ifRange.value).value);
         if (|value| >= 1 && value[0] == '"') || (|value| >= 2 && value[0] == 'W' && value[1] == '/') then
           value == etag
         else
           parseDate(value).Some? && modified.Some?
           && (if parseDate(value).value < 0 then 0 else parseDate(value).value / 1_000_000_000)
              == (if modified.value < 0 then 0 else modified.value / 1_000_000_000)
  {
  }

  /** A printed range as a header value. */
  function AskValue(ask: Ask): HeaderValue {
    AskIsVisible(ask);
    ToBytes(PrintAsk(ask))
  }

  lemma DigitsAreVisible(s: string)
    requires Decimal.AllDigits(s)
    ensures VisibleText(s)
  {
    forall i | 0 <= i < |s| ensures s[i] as int < 0x80 && VisibleByte(s[i] as byte) {
      assert Decimal.IsDigit(s[i]);
    }
  }

  lemma VisibleJoins(a: string, b: string)
    requires VisibleText(a) && VisibleText(b)
    ensures VisibleText(a + b)
  {
  }

  lemma AskIsVisible(ask: Ask)
    ensures VisibleText(PrintAsk(ask))
  {
    assert VisibleText(UNIT) && VisibleText("-");
    match ask
    case Last(n) =>
      NumberIsVisible(n);
      VisibleJoins("-", Decimal.Print(n));
      VisibleJoins(UNIT, "-" + Decimal.Print(n));
    case From(start) =>
      NumberIsVisible(start);
      VisibleJoins(Decimal.Print(start), "-");
      VisibleJoins(UNIT, Decimal.Print(start) + "-");
    case Span(start, end) =>
      NumberIsVisible(start);
      NumberIsVisible(end);
      VisibleJoins(Decimal.Print(start), "-");
      VisibleJoins(Decimal.Print(start) + "-", Decimal.Print(end));
      VisibleJoins(UNIT, Decimal.Print(start) + "-" + Decimal.Print(end));
  }

  lemma NumberIsVisible(n: nat)
    ensures VisibleText(Decimal.Print(n))
  {
    Decimal.PrintValue(n);
    DigitsAreVisible(Decimal.Print(n));
  }

  /** The first byte served and how many, as the file server computes them. */
  function SpanServed(r: Resolved, len: nat): (nat, int)
    requires !r.Unsatisfiable?
  {
    match r
    case Partial(start, end) => (start, end - start + 1)
    case Full => (0, len)
  }
}
