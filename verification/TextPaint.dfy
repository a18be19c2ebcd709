/** Painting a whole diagnostic, line by line. */
module TextPaint {
  import opened Basics
  import opened Strings
  import opened Ansi
  import opened LinePaint

  function WithoutReturn(line: Bytes): Bytes {
    if line != [] && line[|line| - 1] == RETURN then line[..|line| - 1] else line
  }

  predicate EndsWithNewline(text: Bytes) { text != [] && text[|text| - 1] == NEWLINE }

  /** `str::lines`: without their newlines, and without the return before one. */
  function Lines(text: Bytes): seq<Bytes> {
    var at := IndexOf(text, NEWLINE);
    if text == [] then []
    else if at == |text| then [text]
    else [WithoutReturn(text[..at])] + Lines(text[at + 1..])
  }

  /** The lines put together again. */
  function Rejoined(text: Bytes): Bytes {
    Join(Lines(text), NEWLINE) + if EndsWithNewline(text) then [NEWLINE] else []
  }

  ghost predicate HasReturnNewline(text: Bytes) {
    exists i :: 0 <= i < |text| - 1 && text[i] == RETURN && text[i + 1] == NEWLINE
  }

  lemma JoinStep(line: Bytes, rest: seq<Bytes>)
    requires rest != []
    ensures Join([line] + rest, NEWLINE) == line + [NEWLINE] + Join(rest, NEWLINE)
  {
    assert ([line] + rest)[1..] == rest;
  }

  lemma LinesStep(text: Bytes, at: nat)
    requires at < |text| && at == IndexOf(text, NEWLINE)
    ensures Lines(text) == [WithoutReturn(text[..at])] + Lines(text[at + 1..])
  {
  }

  lemma LinesOfSomething(text: Bytes)
    ensures Lines(text) == [] <==> text == []
  {
  }

  lemma LastOfRest(text: Bytes, at: nat)
    requires at < |text| && text[at] == NEWLINE
    ensures text[at + 1..] != [] ==> EndsWithNewline(text) == EndsWithNewline(text[at + 1..])
    ensures text[at + 1..] == [] ==> EndsWithNewline(text)
  {
  }

  lemma RejoinedStep(text: Bytes, at: nat)
    requires at < |text| && at == IndexOf(text, NEWLINE)
    ensures Rejoined(text) == WithoutReturn(text[..at]) + [NEWLINE] + Rejoined(text[at + 1..])
  {
    LinesStep(text, at);
    LinesOfSomething(text[at + 1..]);
    LastOfRest(text, at);
    RejoinedFrom(text, WithoutReturn(text[..at]), text[at + 1..]);
  }

  lemma RejoinedFrom(text: Bytes, line: Bytes, rest: Bytes)
    requires Lines(text) == [line] + Lines(rest)
    requires rest != [] ==> EndsWithNewline(text) == EndsWithNewline(rest) && Lines(rest) != []
    requires rest == [] ==> EndsWithNewline(text) && Lines(rest) == []
    ensures Rejoined(text) == line + [NEWLINE] + Rejoined(rest)
  {
    if rest == [] {
      assert Rejoined(rest) == [];
    } else {
      JoinStep(line, Lines(rest));
      Associates(line + [NEWLINE], Join(Lines(rest), NEWLINE), if EndsWithNewline(rest) then [NEWLINE] else []);
    }
  }

  lemma Associates(a: Bytes, b: Bytes, c: Bytes)
    ensures a + b + c == a + (b + c)
  {
  }

  lemma {:induction false} RejoinedShrinks(text: Bytes)
    ensures |Rejoined(text)| <= |text|
    ensures |Rejoined(text)| == |text| ==> Rejoined(text) == text && !HasReturnNewline(text)
    ensures !HasReturnNewline(text) ==> Rejoined(text) == text
    decreases |text|
  {
    var at := IndexOf(text, NEWLINE);
    if text != [] && at < |text| {
      RejoinedStep(text, at);
      RejoinedShrinks(text[at + 1..]);
      ReturnNewlineSplits(text, at);
      PartsShrink(text, at, Rejoined(text), Rejoined(text[at + 1..]));
    } else if text != [] {
      assert Lines(text) == [text] && NEWLINE !in text;
    }
  }

  /** A line and what follows it, put together from parts no longer than they were. */
  lemma PartsShrink(text: Bytes, at: nat, all: Bytes, rest: Bytes)
    requires at < |text| && text[at] == NEWLINE && all == WithoutReturn(text[..at]) + [NEWLINE] + rest
    requires |rest| <= |text| - at - 1
    ensures |all| <= |text|
    ensures |all| == |text| ==> |rest| == |text| - at - 1 && WithoutReturn(text[..at]) == text[..at]
    ensures rest == text[at + 1..] && WithoutReturn(text[..at]) == text[..at] ==> all == text
  {
  }

  lemma ReturnNewlineSplits(text: Bytes, at: nat)
    requires at < |text| && text[at] == NEWLINE && forall i :: 0 <= i < at ==> text[i] != NEWLINE
    ensures HasReturnNewline(text) <==> WithoutReturn(text[..at]) != text[..at] || HasReturnNewline(text[at + 1..])
  {
    var line, rest := text[..at], text[at + 1..];
    if HasReturnNewline(text) {
      var i :| 0 <= i < |text| - 1 && text[i] == RETURN && text[i + 1] == NEWLINE;
      if i >= at + 1 {
        assert rest[i - at - 1] == RETURN && rest[i - at] == NEWLINE;
      }
    }
    if HasReturnNewline(rest) {
      var i :| 0 <= i < |rest| - 1 && rest[i] == RETURN && rest[i + 1] == NEWLINE;
      assert text[at + 1 + i] == RETURN && text[at + 1 + i + 1] == NEWLINE;
    }
    if WithoutReturn(line) != line {
      assert text[at - 1] == RETURN;
    }
  }

  /** Lines and back is the same text exactly when no return stands before a newline. */
  lemma RejoinedIff(text: Bytes)
    ensures Rejoined(text) == text <==> !HasReturnNewline(text)
  {
    RejoinedShrinks(text);
  }

  /** A return before a newline is lost. */
  lemma ReturnIsDropped()
    ensures Rejoined([RETURN, NEWLINE]) == [NEWLINE]
  {
    var text := [RETURN, NEWLINE];
    IndexIs(text, NEWLINE, 1);
    RejoinedStep(text, 1);
    assert text[..1] == [RETURN] && text[2..] == [];
  }

  // ----------------------------------------------------------------- painting

  lemma Utf8Before(s: Bytes, at: nat)
    requires Utf8(s) && IsBoundary(s, at)
    ensures Utf8(s[..at])
  {
    var part := s[..at];
    forall i | 0 <= i < |part| ensures WholeCharacter(part, i) {
      assert WholeCharacter(s, i);
    }
  }

  lemma LinesAreProper(text: Bytes)
    requires Utf8(text)
    ensures forall i :: 0 <= i < |Lines(text)| ==> Utf8(Lines(text)[i])
    ensures ESC !in text ==> forall i :: 0 <= i < |Lines(text)| ==> ESC !in Lines(text)[i]
    decreases |text|
  {
    var at := IndexOf(text, NEWLINE);
    if text != [] && at < |text| {
      var line := text[..at];
      Utf8Before(text, at);
      if line != [] && line[at - 1] == RETURN {
        Utf8Before(text, at - 1);
        assert line[..at - 1] == text[..at - 1];
      }
      Utf8After(text, at);
      LinesAreProper(text[at + 1..]);
    }
  }

  lemma AddNewline(out: Bytes, text: Bytes)
    ensures Paints(out, text) ==> Paints(out + [NEWLINE], text + [NEWLINE])
  {
    if Paints(out, text) {
      PaintsPlain([NEWLINE]);
      PaintsAppend(out, text, [NEWLINE], [NEWLINE]);
    }
  }

  /** What is written once `n` lines and the newline after them are. */
  function Before(lines: seq<Bytes>, n: nat): Bytes
    requires n <= |lines|
  {
    if n == 0 then []
    else Before(lines, n - 1) + lines[n - 1] + if n < |lines| then [NEWLINE] else []
  }

  lemma BeforeAll(lines: seq<Bytes>)
    ensures Before(lines, |lines|) == Join(lines, NEWLINE)
  {
    if lines != [] {
      BeforeFrom(lines, 0);
    }
  }

  lemma {:induction false} BeforeFrom(lines: seq<Bytes>, n: nat)
    requires n < |lines|
    ensures Before(lines, |lines|) == Before(lines, n) + Join(lines[n..], NEWLINE)
    decreases |lines| - n
  {
    if n + 1 < |lines| {
      BeforeFrom(lines, n + 1);
      assert lines[n..][1..] == lines[n + 1..];
      assert Before(lines, n + 1) + Join(lines[n + 1..], NEWLINE)
          == Before(lines, n) + (lines[n] + [NEWLINE] + Join(lines[n + 1..], NEWLINE));
    } else {
      assert lines[n..] == [lines[n]];
    }
  }

  /** The `peek`: the newline that follows line `i`, unless it is the last. */
  method PaintAt(lines: seq<Bytes>, i: nat, soFar: Bytes) returns (out: Bytes, ghost painted: Bytes)
    requires i < |lines| && Utf8(lines[i])
    ensures Painted(painted, Pieces(lines[i])) && out == soFar + painted + if i + 1 < |lines| then [NEWLINE] else []
    ensures ESC !in lines[i] && Paints(soFar, Before(lines, i)) ==> Paints(out, Before(lines, i + 1))
  {
    var line := PaintLine(lines[i]);
    painted := line;
    out := soFar + line;
    if ESC !in lines[i] && Paints(soFar, Before(lines, i)) {
      PaintsAppend(soFar, Before(lines, i), line, lines[i]);
    }
    if i + 1 < |lines| {
      AddNewline(out, Before(lines, i) + lines[i]);
      out := out + [NEWLINE];
    }
    assert Before(lines, i) + lines[i] + [] == Before(lines, i) + lines[i];
  }

  /** Each of some lines, painted by its shape. */
  ghost predicate AllPainted(painted: seq<Bytes>, lines: seq<Bytes>) {
    |painted| <= |lines| && forall i :: 0 <= i < |painted| ==> Painted(painted[i], Pieces(lines[i]))
  }

  /** Some lines with newlines between them, and one more when others follow. */
  function Separated(lines: seq<Bytes>, more: bool): Bytes {
    Join(lines, NEWLINE) + if more && lines != [] then [NEWLINE] else []
  }

  lemma {:induction false} JoinSnoc(lines: seq<Bytes>, last: Bytes)
    ensures Join(lines + [last], NEWLINE) == Separated(lines, true) + last
    decreases |lines|
  {
    if lines == [] {
      assert [] + [last] == [last];
    } else {
      JoinSnoc(lines[1..], last);
      assert lines + [last] == [lines[0]] + (lines[1..] + [last]);
      JoinStep(lines[0], lines[1..] + [last]);
      if |lines| > 1 {
        assert [lines[0]] + lines[1..] == lines;
        JoinStep(lines[0], lines[1..]);
      }
    }
  }

  lemma SeparatedStep(painted: seq<Bytes>, last: Bytes, more: bool)
    ensures Separated(painted, true) + last + (if more then [NEWLINE] else []) == Separated(painted + [last], more)
  {
    JoinSnoc(painted, last);
  }

  /** No line holds a newline. */
  lemma {:induction false} LinesAreLines(text: Bytes)
    ensures forall i :: 0 <= i < |Lines(text)| ==> 0x0A !in Lines(text)[i]
    decreases |text|
  {
    var at := IndexOf(text, NEWLINE);
    if text != [] && at < |text| {
      LinesAreLines(text[at + 1..]);
      assert NEWLINE !in WithoutReturn(text[..at]);
    }
  }

  ghost predicate NoEscapes(lines: seq<Bytes>) { forall i :: 0 <= i < |lines| ==> ESC !in lines[i] }

  ghost predicate AllUtf8(lines: seq<Bytes>) { forall i :: 0 <= i < |lines| ==> Utf8(lines[i]) }

  lemma NoneYet(lines: seq<Bytes>)
    ensures AllPainted([], lines) && Separated([], 0 < |lines|) == []
  {
  }

  lemma OneMorePainted(painted: seq<Bytes>, lines: seq<Bytes>, line: Bytes)
    requires |painted| < |lines| && AllPainted(painted, lines) && Painted(line, Pieces(lines[|painted|]))
    ensures AllPainted(painted + [line], lines)
  {
    forall i | 0 <= i < |painted| + 1 ensures Painted((painted + [line])[i], Pieces(lines[i])) {
      if i < |painted| {
        assert (painted + [line])[i] == painted[i];
        assert Painted(painted[i], Pieces(lines[i]));
      }
    }
  }

  /** The loop over the lines: each painted by its shape, newlines between them. */
  method PaintLines(lines: seq<Bytes>) returns (out: Bytes, ghost painted: seq<Bytes>)
    requires AllUtf8(lines)
    ensures |painted| == |lines| && AllPainted(painted, lines) && out == Separated(painted, false)
    ensures NoEscapes(lines) ==> Paints(out, Join(lines, NEWLINE))
  {
    out, painted := [], [];
    NoneYet(lines);
    PaintsPlain([]);
    var i := 0;
    while i < |lines|
      invariant 0 <= i <= |lines| && |painted| == i
      invariant AllPainted(painted, lines) && out == Separated(painted, i < |lines|)
      invariant NoEscapes(lines) ==> Paints(out, Before(lines, i))
    {
      ghost var line: Bytes;
      out, line := PaintAt(lines, i, out);
      SeparatedStep(painted, line, i + 1 < |lines|);
      OneMorePainted(painted, lines, line);
      painted := painted + [line];
      i := i + 1;
    }
    BeforeAll(lines);
  }

  /** Every line painted by its shape, and the end of the text as it was. */
  ghost predicate PaintedText(out: Bytes, text: Bytes, painted: seq<Bytes>) {
    && |painted| == |Lines(text)| && AllPainted(painted, Lines(text))
    && out == Join(painted, 0x0A) + if text != [] && text[|text| - 1] == 0x0A then [0x0A] else []
  }

  /** Paints every line by its shape; newlines stay between lines, and at the end if
      there was one. */
  method Paint(text: Bytes) returns (out: Bytes)
    requires Utf8(text)
    ensures exists painted :: PaintedText(out, text, painted)
    ensures ESC !in text ==> Paints(out, Rejoined(text))
    ensures ESC !in text && !HasReturnNewline(text) ==> Erase(out) == text && !Lit(out, false)
  {
    var lines := Lines(text);
    LinesAreProper(text);
    ghost var painted: seq<Bytes>;
    out, painted := PaintLines(lines);
    if EndsWithNewline(text) {
      AddNewline(out, Join(lines, NEWLINE));
      out := out + [NEWLINE];
    }
    WholePainted(out, text, painted);
    PaintedWhole(text, out);
  }

  lemma WholePainted(out: Bytes, text: Bytes, painted: seq<Bytes>)
    requires |painted| == |Lines(text)| && AllPainted(painted, Lines(text))
    requires out == Separated(painted, false) + if EndsWithNewline(text) then [NEWLINE] else []
    ensures PaintedText(out, text, painted)
  {
  }

  lemma PaintedWhole(text: Bytes, out: Bytes)
    ensures Join(Lines(text), NEWLINE) + [] == Join(Lines(text), NEWLINE)
    ensures Paints(out, Rejoined(text)) && !HasReturnNewline(text) ==> Erase(out) == text && !Lit(out, false)
  {
    RejoinedIff(text);
    if Paints(out, Rejoined(text)) && !HasReturnNewline(text) {
      PaintsWhole(out, text);
    }
  }
}
