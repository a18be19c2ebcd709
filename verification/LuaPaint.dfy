/**
 The one-line Lua highlight. The spans of a line are described on their own, by
 where they start and end; the scanner is proved to produce them, slicing only
 at character boundaries, and to change nothing but colour.
 */
module LuaPaint {
  import opened Basics
  import opened Ansi

  const QUOTE: byte := 0x22
  const APOSTROPHE: byte := 0x27
  const BACKSLASH: byte := 0x5C
  const DASH: byte := 0x2D
  const UNDERSCORE: byte := 0x5F

  const LUA_KEYWORDS: seq<string> := [
    "and", "break", "do", "else", "elseif", "end", "false", "for", "function", "goto", "if", "in",
    "local", "nil", "not", "or", "repeat", "return", "then", "true", "until", "while"
  ]

  predicate IsKeyword(word: Bytes) {
    exists i :: 0 <= i < |LUA_KEYWORDS| && Ascii(LUA_KEYWORDS[i]) == word
  }

  predicate IsAlpha(b: byte) { 0x41 <= b <= 0x5A || 0x61 <= b <= 0x7A }

  predicate StartsWord(b: byte) { IsAlpha(b) || b == UNDERSCORE }

  predicate InWord(b: byte) { StartsWord(b) || 0x30 <= b <= 0x39 }

  predicate IsQuote(b: byte) { b == QUOTE || b == APOSTROPHE }

  datatype Span = Comment(text: Bytes) | Quoted(text: Bytes) | Keyword(text: Bytes) | Word(text: Bytes) | Other(text: Bytes)

  function Render(span: Span): Bytes {
    match span
    case Comment(text) => DIM + GREEN + text + RESET
    case Quoted(text) => GREEN + text + RESET
    case Keyword(text) => MAGENTA + text + RESET
    case Word(text) => text
    case Other(text) => text
  }

  function RenderAll(spans: seq<Span>): Bytes {
    if spans == [] then [] else RenderAll(spans[..|spans| - 1]) + Render(spans[|spans| - 1])
  }

  function TextOf(spans: seq<Span>): Bytes {
    if spans == [] then [] else TextOf(spans[..|spans| - 1]) + spans[|spans| - 1].text
  }

  // --------------------------------------------------- what the spans are

  predicate StartsComment(code: Bytes, i: nat) {
    i + 1 < |code| && code[i] == DASH && code[i + 1] == DASH
  }

  /** Backslashes in a row just before `p`, inside the string opened at `i`. */
  function Backslashes(code: Bytes, i: nat, p: nat): nat
    requires p <= |code|
  {
    if p <= i + 1 || code[p - 1] != BACKSLASH then 0 else 1 + Backslashes(code, i, p - 1)
  }

  predicate Closing(code: Bytes, i: nat, p: int) {
    i < p < |code| && code[p] == code[i] && Backslashes(code, i, p) % 2 == 0
  }

  /** The string opened at `i` ends before `j`: past its first quote that is not
      escaped, or with the line. */
  ghost predicate ClosesAt(code: Bytes, i: nat, j: nat) {
    && i < j <= |code| && (forall p :: i < p < j - 1 ==> !Closing(code, i, p))
    && (Closing(code, i, j - 1) || j == |code|)
  }

  /** What each kind of span is, at its place in the line. */
  ghost predicate Fits(code: Bytes, i: nat, span: Span) {
    var j := i + |span.text|;
    && i < j <= |code| && code[i..j] == span.text && IsBoundary(code, i) && IsBoundary(code, j)
    && match span
       case Comment(_) => StartsComment(code, i) && j == |code|
       case Quoted(_) => IsQuote(code[i]) && ClosesAt(code, i, j)
       case Keyword(text) => IsWholeWord(code, i, j) && IsKeyword(text)
       case Word(text) => IsWholeWord(code, i, j) && !IsKeyword(text)
       case Other(_) =>
         !StartsComment(code, i) && !IsQuote(code[i]) && !StartsWord(code[i]) && j == i + Width(code[i])
  }

  ghost predicate IsWholeWord(code: Bytes, i: nat, j: nat)
    requires i < j <= |code|
  {
    && StartsWord(code[i]) && (forall k :: i < k < j ==> InWord(code[k]))
    && (j < |code| ==> !InWord(code[j]))
  }

  /** The `n`th span fits where the ones before it end. */
  ghost predicate FitsAt(spans: seq<Span>, code: Bytes, n: nat)
    requires n < |spans|
  {
    Fits(code, |TextOf(spans[..n])|, spans[n])
  }

  /** `spans` are the spans of `code[..to]`, end to end. */
  ghost predicate SpansOf(spans: seq<Span>, code: Bytes, to: nat) {
    |TextOf(spans)| == to && forall n :: 0 <= n < |spans| ==> FitsAt(spans, code, n)
  }

  // ----------------------------------------------------------- the scanner

  lemma NextBoundary(code: Bytes, i: nat)
    requires Utf8(code) && i < |code| && IsBoundary(code, i)
    ensures IsBoundary(code, i + Width(code[i]))
  {
    assert WholeCharacter(code, i);
  }

  /** `out` is the line, highlighted: each of its spans in its own colour. */
  ghost predicate Highlights(out: Bytes, code: Bytes) {
    exists spans :: SpansOf(spans, code, |code|) && out == RenderAll(spans)
  }

  method PaintLua(code: Bytes) returns (out: Bytes)
    requires Utf8(code)
    ensures Highlights(out, code)
    ensures ESC !in code ==> Erase(out) == code && !Lit(out, false)
  {
    out := [];
    ghost var spans: seq<Span> := [];
    var i := 0;
    while i < |code|
      invariant i <= |code| && IsBoundary(code, i)
      invariant SpansOf(spans, code, i) && out == RenderAll(spans)
      decreases |code| - i
    {
      var piece, end, span := PaintSpan(code, i);
      Extend(spans, code, i, span);
      FitsInside(code, i, span);
      out, spans, i := out + piece, spans + [span], end;
    }
    if ESC !in code {
      PaintingKeepsText(spans, code);
    }
  }

  /** The span at `i`, painted; the rest of the line when it is a comment. */
  method PaintSpan(code: Bytes, i: nat) returns (piece: Bytes, end: nat, ghost span: Span)
    requires Utf8(code) && i < |code| && IsBoundary(code, i)
    ensures Fits(code, i, span) && piece == Render(span) && end == i + |span.text|
  {
    var rest := Slice(code, i, |code|);
    if |rest| >= 2 && rest[0] == DASH && rest[1] == DASH {
      piece, end, span := DIM + GREEN + rest + RESET, |code|, Comment(rest);
    } else if code[i] == QUOTE || code[i] == APOSTROPHE {
      end := ScanString(code, i);
      var text := Slice(code, i, end);
      piece, span := GREEN + text + RESET, Quoted(text);
    } else if StartsWord(code[i]) {
      end := ScanWord(code, i);
      var word := Slice(code, i, end);
      if IsKeyword(word) {
        piece, span := MAGENTA + word + RESET, Keyword(word);
      } else {
        piece, span := word, Word(word);
      }
    } else {
      NextBoundary(code, i);
      end := i + Width(code[i]);
      piece := Slice(code, i, end);
      span := Other(piece);
    }
  }

  /** A span that fits can be added at the end. */
  lemma Extend(spans: seq<Span>, code: Bytes, i: nat, span: Span)
    requires SpansOf(spans, code, i) && Fits(code, i, span)
    ensures SpansOf(spans + [span], code, i + |span.text|)
    ensures RenderAll(spans + [span]) == RenderAll(spans) + Render(span)
  {
    var more := spans + [span];
    assert more[..|spans|] == spans;
    forall n | 0 <= n < |more| ensures FitsAt(more, code, n) {
      if n < |spans| {
        assert FitsAt(spans, code, n);
        assert more[..n] == spans[..n];
      }
    }
  }

  lemma FitsInside(code: Bytes, i: nat, span: Span)
    requires Fits(code, i, span)
    ensures span.text != [] && i + |span.text| <= |code| && IsBoundary(code, i + |span.text|)
    ensures code[i..i + |span.text|] == span.text
  {
  }

  /** The end of the string opened at `i`. A backslash may step into the middle of a
      character, but the scan stops only after an ASCII quote or at the end. */
  method ScanString(code: Bytes, i: nat) returns (end: nat)
    requires Utf8(code) && i < |code| && IsQuote(code[i])
    ensures i < end <= |code| && ClosesAt(code, i, end) && IsBoundary(code, end)
  {
    var quote := code[i];
    end := i + 1;
    while end < |code|
      invariant i < end && forall p :: i < p < end ==> !Closing(code, i, p)
      invariant end <= |code| ==> Backslashes(code, i, end) % 2 == 0
      decreases |code| - end
    {
      if code[end] == BACKSLASH {
        assert end + 1 < |code| ==> Backslashes(code, i, end + 1) % 2 == 1;
        end := end + 2;
        continue;
      }
      if code[end] == quote {
        end := end + 1;
        assert Closing(code, i, end - 1);
        AfterAscii(code, end - 1);
        return;
      }
      end := end + 1;
    }
    // An escape may have stepped past the end.
    end := |code|;
  }

  lemma AfterAscii(code: Bytes, at: nat)
    requires Utf8(code) && at < |code| && code[at] < 0x80
    ensures IsBoundary(code, at + 1)
  {
    assert WholeCharacter(code, at);
  }

  method ScanWord(code: Bytes, i: nat) returns (end: nat)
    requires Utf8(code) && i < |code| && StartsWord(code[i])
    ensures i < end <= |code| && IsWholeWord(code, i, end) && IsBoundary(code, end)
  {
    end := i + 1;
    while end < |code| && InWord(code[end])
      invariant i < end <= |code| && forall k :: i < k < end ==> InWord(code[k])
    {
      end := end + 1;
    }
    AfterAscii(code, end - 1);
  }

  // --------------------------------------------------------- what it means

  lemma CodesAreCodes()
    ensures IsCode(RESET) && IsCode(BOLD) && IsCode(DIM) && IsCode(RED) && IsCode(GREEN)
    ensures IsCode(MAGENTA) && IsCode(CYAN) && IsCode(BLUE)
  {
  }

  lemma SpanPaints(span: Span)
    requires ESC !in span.text
    ensures Paints(Render(span), span.text)
  {
    CodesAreCodes();
    match span
    case Comment(text) => PaintsTwice(DIM, GREEN, text);
    case Quoted(text) => PaintsColoured(GREEN, text);
    case Keyword(text) => PaintsColoured(MAGENTA, text);
    case Word(text) => PaintsPlain(text);
    case Other(text) => PaintsPlain(text);
  }

  lemma {:induction false} SpansPaint(spans: seq<Span>)
    requires ESC !in TextOf(spans)
    ensures Paints(RenderAll(spans), TextOf(spans))
  {
    if spans == [] {
      PaintsPlain([]);
    } else {
      var init, last := spans[..|spans| - 1], spans[|spans| - 1];
      assert forall b :: b in TextOf(init) || b in last.text ==> b in TextOf(spans);
      SpansPaint(init);
      SpanPaints(last);
      PaintsAppend(RenderAll(init), TextOf(init), Render(last), last.text);
    }
  }

  lemma {:induction false} SpansCover(spans: seq<Span>, code: Bytes, to: nat)
    requires SpansOf(spans, code, to)
    ensures to <= |code| && TextOf(spans) == code[..to]
  {
    if spans != [] {
      var init, last := spans[..|spans| - 1], spans[|spans| - 1];
      FewerSpans(spans, code, to);
      SpansCover(init, code, |TextOf(init)|);
      assert FitsAt(spans, code, |spans| - 1);
      FitsInside(code, |TextOf(init)|, last);
      assert code[..to] == code[..|TextOf(init)|] + last.text;
    }
  }

  lemma FewerSpans(spans: seq<Span>, code: Bytes, to: nat)
    requires SpansOf(spans, code, to) && spans != []
    ensures SpansOf(spans[..|spans| - 1], code, |TextOf(spans[..|spans| - 1])|)
  {
    var init := spans[..|spans| - 1];
    forall n | 0 <= n < |init| ensures FitsAt(init, code, n) {
      assert FitsAt(spans, code, n);
      assert init[..n] == spans[..n];
    }
  }

  /** Painting a line with no escape codes adds colour and nothing else, and leaves
      the terminal uncoloured. */
  lemma PaintingKeepsText(spans: seq<Span>, code: Bytes)
    requires SpansOf(spans, code, |code|) && ESC !in code
    ensures Paints(RenderAll(spans), code)
    ensures Erase(RenderAll(spans)) == code && !Lit(RenderAll(spans), false)
  {
    SpansCover(spans, code, |code|);
    assert code[..|code|] == code;
    SpansPaint(spans);
    PaintsWhole(RenderAll(spans), code);
  }

  /** A place in a line has one span only. */
  lemma OneSpan(code: Bytes, i: nat, a: Span, b: Span)
    requires Fits(code, i, a) && Fits(code, i, b)
    ensures a == b
  {
    if a.Quoted? && b.Quoted? {
      ClosesOnce(code, i, i + |a.text|, i + |b.text|);
    }
    if |a.text| == |b.text| {
      assert a.text == b.text;
    }
  }

  lemma ClosesOnce(code: Bytes, i: nat, j: nat, k: nat)
    requires ClosesAt(code, i, j) && ClosesAt(code, i, k)
    ensures j == k
  {
    assert j < k ==> !Closing(code, i, j - 1);
    assert k < j ==> !Closing(code, i, k - 1);
  }

  lemma {:induction false} SpansAgree(a: seq<Span>, b: seq<Span>, code: Bytes, n: nat)
    requires SpansOf(a, code, |TextOf(a)|) && SpansOf(b, code, |TextOf(b)|) && n <= |a| && n <= |b|
    ensures a[..n] == b[..n]
  {
    if n > 0 {
      SpansAgree(a, b, code, n - 1);
      assert FitsAt(a, code, n - 1) && FitsAt(b, code, n - 1);
      OneSpan(code, |TextOf(a[..n - 1])|, a[n - 1], b[n - 1]);
      assert a[..n] == a[..n - 1] + [a[n - 1]] && b[..n] == b[..n - 1] + [b[n - 1]];
    }
  }

  /** The spans of a line are determined by what they are, so its painting is too. */
  lemma SpansUnique(a: seq<Span>, b: seq<Span>, code: Bytes)
    requires SpansOf(a, code, |code|) && SpansOf(b, code, |code|)
    ensures a == b
  {
    NoMoreSpans(b, a, code);
    NoMoreSpans(a, b, code);
    SpansAgree(a, b, code, |a|);
    assert a[..|a|] == a && b[..|b|] == b;
  }

  lemma NoMoreSpans(long: seq<Span>, short: seq<Span>, code: Bytes)
    requires SpansOf(long, code, |code|) && SpansOf(short, code, |code|)
    ensures |long| <= |short|
  {
    var n := |short|;
    if |long| > n {
      SpansAgree(long, short, code, n);
      assert short[..n] == short;
      assert FitsAt(long, code, n);
      NoSpanAtEnd(code, long[n]);
    }
  }

  lemma NoSpanAtEnd(code: Bytes, span: Span)
    ensures !Fits(code, |code|, span)
  {
  }
}
