/** The words and codes byte by byte, and what each shape of line is painted as. */
module PaintShapes {
  import opened Basics
  import opened Strings
  import opened Ansi
  import opened LuaPaint
  import opened LinePaint

  /** The eight codes: `ESC [ n m` with the numbers 0, 1, 2, 31, 32, 35, 36 and 34. */
  lemma CodesAre()
    ensures RESET == [0x1B, 0x5B, 0x30, 0x6D] && BOLD == [0x1B, 0x5B, 0x31, 0x6D] && DIM == [0x1B, 0x5B, 0x32, 0x6D]
    ensures RED == [0x1B, 0x5B, 0x33, 0x31, 0x6D] && GREEN == [0x1B, 0x5B, 0x33, 0x32, 0x6D]
    ensures MAGENTA == [0x1B, 0x5B, 0x33, 0x35, 0x6D] && CYAN == [0x1B, 0x5B, 0x33, 0x36, 0x6D]
    ensures BLUE == [0x1B, 0x5B, 0x33, 0x34, 0x6D]
  {
  }

  /** The words a line is known by, in ASCII. */
  lemma WordsAre()
    ensures ERROR_CAP == [0x45, 0x72, 0x72, 0x6F, 0x72, 0x3A]
    ensures SCRIPT_ERROR == [0x73, 0x63, 0x72, 0x69, 0x70, 0x74, 0x20, 0x65, 0x72, 0x72, 0x6F, 0x72, 0x3A]
    ensures ERROR == [0x65, 0x72, 0x72, 0x6F, 0x72, 0x3A]
    ensures ARROW == [0x2D, 0x2D, 0x3E, 0x20]
    ensures TRACEBACK ==
      [0x73, 0x74, 0x61, 0x63, 0x6B, 0x20, 0x74, 0x72, 0x61, 0x63, 0x65, 0x62, 0x61, 0x63, 0x6B, 0x3A]
    ensures CAUSED_BY == [0x43, 0x61, 0x75, 0x73, 0x65, 0x64, 0x20, 0x62, 0x79, 0x3A]
  {
  }

  /** Only ASCII white space. */
  predicate Blank(s: Bytes) {
    forall i :: 0 <= i < |s| ==> 9 <= s[i] <= 13 || s[i] == 32
  }

  /** Starts with a visible ASCII character. */
  predicate Inked(s: Bytes) { s != [] && 0x21 <= s[0] <= 0x7E }

  lemma {:induction false} IndentIs(indent: Bytes, rest: Bytes)
    requires Blank(indent) && (rest != [] ==> Inked(rest))
    ensures IndentOf(indent + rest) == |indent|
    decreases |indent|
  {
    if indent == [] {
      assert indent + rest == rest;
    } else {
      assert (indent + rest)[0] == indent[0] && (indent + rest)[1..] == indent[1..] + rest;
      IndentIs(indent[1..], rest);
    }
  }

  lemma {:induction false} TrimmedEndIs(all: Bytes, n: nat)
    requires n <= |all| && (n > 0 ==> 0x21 <= all[n - 1] <= 0x7E)
    requires forall i :: n <= i < |all| ==> 9 <= all[i] <= 13 || all[i] == 32
    ensures TrimmedEnd(all) == all[..n]
    decreases |all|
  {
    if n < |all| {
      TrimmedEndIs(all[..|all| - 1], n);
      assert all[..|all| - 1][..n] == all[..n];
    }
  }

  /** Beyond ASCII, the bytes taken for white space are the UTF-8 of the characters that are. */
  lemma WideSpacesAre(c: char, rest: Bytes)
    requires 0x80 <= c as int < 0xD800
    ensures c as int < 0x800 ==>
      var first, last := (0xC0 + c as int / 64) as byte, (0x80 + c as int % 64) as byte;
      SpaceAtStart([first, last] + rest) > 0 <==> IsSpace(c)
    ensures 0x800 <= c as int ==>
      var first, second := (0xE0 + c as int / 4096) as byte, (0x80 + c as int / 64 % 64) as byte;
      var last := (0x80 + c as int % 64) as byte;
      SpaceAtStart([first, second, last] + rest) > 0 <==> IsSpace(c)
  {
  }

  /** Trimming a text of visible characters between blanks. */
  lemma TrimmedIs(before: Bytes, text: Bytes, after: Bytes)
    requires Blank(before) && Blank(after)
    requires text != [] ==> Inked(text) && 0x21 <= text[|text| - 1] <= 0x7E
    ensures Trimmed(before + text + after) == text
  {
    var all, rest := before + text + after, text + after;
    if text == [] {
      assert all + [] == all;
      IndentIs(all, []);
      TrimmedEndIs([], 0);
    } else {
      assert all == before + rest && all[|before|..] == rest;
      IndentIs(before, rest);
      TrimmedEndIs(rest, |text|);
      assert rest[..|text|] == text;
    }
  }

  lemma RenderSnoc(pieces: seq<Piece>, last: Piece, lua: seq<Span>)
    ensures RenderPieces(pieces + [last], lua) == RenderPieces(pieces, lua) + RenderPiece(last, lua)
  {
    assert (pieces + [last])[..|pieces|] == pieces;
  }

  lemma Render2(a: Piece, b: Piece, lua: seq<Span>)
    ensures RenderPieces([a], lua) == RenderPiece(a, lua)
    ensures RenderPieces([a, b], lua) == RenderPiece(a, lua) + RenderPiece(b, lua)
  {
    RenderSnoc([], a, lua);
    RenderSnoc([a], b, lua);
    assert [] + [a] == [a] && [a] + [b] == [a, b];
    assert [] + RenderPiece(a, lua) == RenderPiece(a, lua);
  }

  /** A painting of one piece, two, three or four, none of them Lua. */
  lemma Painted1(pieces: seq<Piece>, a: Piece, out: Bytes)
    requires Painted(out, pieces) && pieces == [a] && !a.Lua?
    ensures out == RenderPiece(a, [])
  {
    var lua :| LuaSpans(pieces, lua) && out == RenderPieces(pieces, lua);
    Render2(a, a, lua);
  }

  lemma Painted2(pieces: seq<Piece>, a: Piece, b: Piece, out: Bytes)
    requires Painted(out, pieces) && pieces == [a, b] && !a.Lua? && !b.Lua?
    ensures out == RenderPiece(a, []) + RenderPiece(b, [])
  {
    var lua :| LuaSpans(pieces, lua) && out == RenderPieces(pieces, lua);
    Render2(a, b, lua);
  }

  lemma Painted3(pieces: seq<Piece>, a: Piece, b: Piece, c: Piece, out: Bytes)
    requires Painted(out, pieces) && pieces == [a, b, c] && !a.Lua? && !b.Lua? && !c.Lua?
    ensures out == RenderPiece(a, []) + RenderPiece(b, []) + RenderPiece(c, [])
  {
    var lua :| LuaSpans(pieces, lua) && out == RenderPieces(pieces, lua);
    Render2(a, b, lua);
    RenderSnoc([a, b], c, lua);
    assert [a, b] + [c] == pieces;
  }

  lemma Painted4(pieces: seq<Piece>, a: Piece, b: Piece, c: Piece, d: Piece, out: Bytes)
    requires Painted(out, pieces) && pieces == [a, b, c, d] && !a.Lua? && !b.Lua? && !c.Lua? && !d.Lua?
    ensures out == RenderPiece(a, []) + RenderPiece(b, []) + RenderPiece(c, []) + RenderPiece(d, [])
  {
    var lua :| LuaSpans(pieces, lua) && out == RenderPieces(pieces, lua);
    Render2(a, b, lua);
    RenderSnoc([a, b], c, lua);
    RenderSnoc([a, b, c], d, lua);
    assert [a, b] + [c] == [a, b, c] && [a, b, c] + [d] == pieces;
  }

  predicate Marks(marker: Bytes) { marker == ERROR_CAP || marker == SCRIPT_ERROR || marker == ERROR }

  /** A headline: bold red up to the colon, bold after it. */
  lemma HeadlineIsPainted(indent: Bytes, marker: Bytes, message: Bytes, out: Bytes)
    requires Blank(indent) && Marks(marker)
    requires Painted(out, Pieces(indent + (marker + message)))
    ensures out == indent + (BOLD + RED + marker + RESET) + (BOLD + message + RESET)
  {
    HeadlinePieces(indent, marker, message);
    Painted3(Pieces(indent + (marker + message)), Plain(indent), Two(BOLD, RED, marker), One(BOLD, message), out);
  }

  lemma HeadlinePieces(indent: Bytes, marker: Bytes, message: Bytes)
    requires Blank(indent) && Marks(marker)
    ensures Pieces(indent + (marker + message)) == Headline(indent, marker, message)
  {
    var trimmed := marker + message;
    MarkerIs(marker, message);
    IndentIs(indent, trimmed);
    assert trimmed[|marker|..] == message;
    var line := indent + trimmed;
    assert line[..|indent|] == indent && line[|indent|..] == trimmed;
  }

  lemma MarkerIs(marker: Bytes, message: Bytes)
    requires Marks(marker)
    ensures Marker(marker + message) == Some(marker) && (marker + message)[0] == marker[0] && Inked(marker)
  {
    WordsAre();
    assert (marker + message)[0] == marker[0];
  }

  /** A line whose first visible characters start no headline and no location. */
  predicate NoFront(trimmed: Bytes) {
    && !(ERROR_CAP <= trimmed)
    && !(SCRIPT_ERROR <= trimmed)
    && !(ERROR <= trimmed)
    && !(ARROW <= trimmed)
  }

  lemma NoFrontIs(indent: Bytes, trimmed: Bytes)
    requires NoFront(trimmed)
    ensures FrontPieces(indent, trimmed).None?
  {
  }

  /** What starts with another character than `E`, `s`, `e` and `-` starts none of them. */
  lemma OtherFirst(trimmed: Bytes)
    requires trimmed != [] && trimmed[0] !in [0x45, 0x73, 0x65, 0x2D]
    ensures NoFront(trimmed)
  {
    WordsAre();
  }

  /** A location: the arrow in bold blue, what it points to in cyan. */
  lemma LocationIsPainted(indent: Bytes, location: Bytes, out: Bytes)
    requires Blank(indent) && Painted(out, Pieces(indent + (ARROW + location)))
    ensures out == indent + (BOLD + BLUE + [0x2D, 0x2D, 0x3E] + RESET) + [0x20] + (CYAN + location + RESET)
  {
    LocationPieces(indent, location);
    Painted4(Pieces(indent + (ARROW + location)),
             Plain(indent), Two(BOLD, BLUE, [0x2D, 0x2D, 0x3E]), Plain([0x20]), One(CYAN, location), out);
  }

  lemma LocationPieces(indent: Bytes, location: Bytes)
    requires Blank(indent)
    ensures Pieces(indent + (ARROW + location)) ==
      [Plain(indent), Two(BOLD, BLUE, [0x2D, 0x2D, 0x3E]), Plain([0x20]), One(CYAN, location)]
  {
    var trimmed := ARROW + location;
    var line := indent + trimmed;
    ArrowIs(location);
    IndentIs(indent, trimmed);
    assert line[..|indent|] == indent && line[|indent|..] == trimmed;
  }

  lemma ArrowIs(location: Bytes)
    ensures var trimmed := ARROW + location;
      && ARROW <= trimmed && Marker(trimmed).None? && Inked(trimmed)
      && trimmed[..3] == [0x2D, 0x2D, 0x3E] && trimmed[3..4] == [0x20] && trimmed[4..] == location
  {
    var trimmed := ARROW + location;
    WordsAre();
    assert trimmed[0] == 0x2D;
  }

  /** The first bar of a line is where a text without one is followed by it. */
  lemma FirstBar(gutter: Bytes, rest: Bytes)
    requires 0x7C !in gutter
    ensures var line := gutter + ([0x7C] + rest);
      IndexOf(line, BAR) == |gutter| && line[..|gutter|] == gutter && line[|gutter| + 1..] == rest
  {
    var line := gutter + ([0x7C] + rest);
    IndexIs(line, BAR, |gutter|);
  }

  /** Carets under a snippet: the bar in bold blue, all behind it in bold red. */
  lemma CaretsArePainted(gutter: Bytes, before: Bytes, carets: Bytes, after: Bytes, out: Bytes)
    requires Blank(gutter) && Blank(before) && Blank(after)
    requires carets != [] && forall i :: 0 <= i < |carets| ==> carets[i] == 0x5E
    requires Painted(out, Pieces(gutter + ([0x7C] + (before + carets + after))))
    ensures out == gutter + (BOLD + BLUE + [0x7C] + RESET) + (BOLD + RED + (before + carets + after) + RESET)
  {
    var rest := before + carets + after;
    TrimmedIs(before, carets, after);
    TrimmedIs(gutter, [], []);
    assert gutter + [] + [] == gutter;
    CaretPieces(gutter, rest);
    Painted3(Pieces(gutter + ([0x7C] + rest)), Plain(gutter), Two(BOLD, BLUE, [0x7C]), Two(BOLD, RED, rest), out);
  }

  lemma CaretPieces(gutter: Bytes, rest: Bytes)
    requires Blank(gutter) && Trimmed(gutter) == []
    requires Trimmed(rest) != [] && forall i :: 0 <= i < |Trimmed(rest)| ==> Trimmed(rest)[i] == 0x5E
    ensures Pieces(gutter + ([0x7C] + rest)) == CaretLine(gutter, rest)
  {
    BehindBar(gutter, rest);
    assert IsCaretLine(gutter, rest);
  }

  /** Blanks and a bar: neither a headline nor a location. */
  lemma BehindBar(gutter: Bytes, rest: Bytes)
    requires Blank(gutter)
    ensures var line := gutter + ([0x7C] + rest);
      && FrontPieces(line[..IndentOf(line)], line[IndentOf(line)..]).None?
      && IndexOf(line, BAR) == |gutter| && line[..|gutter|] == gutter && line[|gutter| + 1..] == rest
  {
    var trimmed := [0x7C] + rest;
    var line := gutter + trimmed;
    assert trimmed[0] == 0x7C;
    IndentIs(gutter, trimmed);
    FirstBar(gutter, rest);
    assert line[|gutter|..] == trimmed;
    OtherFirst(trimmed);
    NoFrontIs(line[..|gutter|], trimmed);
  }

  /** A numbered line of a snippet: the gutter and its bar in bold blue, and behind
      them the source, highlighted. */
  lemma SnippetIsPainted(before: Bytes, number: Bytes, after: Bytes, code: Bytes, gutter: Bytes, out: Bytes)
    requires Blank(before) && Blank(after) && gutter == before + number + after
    requires number != [] && forall i :: 0 <= i < |number| ==> 0x30 <= number[i] <= 0x39
    requires Painted(out, Pieces(gutter + ([0x7C] + code)))
    ensures exists lua :: SpansOf(lua, code, |code|) && out == (BOLD + BLUE + (gutter + [0x7C]) + RESET) + RenderAll(lua)
  {
    GutterIs(before, number, after);
    NumberFirst(before, number, after, code, gutter + ([0x7C] + code));
    SnippetOf(gutter, number, code, Pieces(gutter + ([0x7C] + code)), out);
  }

  /** The bare line between snippet and location: no number, and no carets behind the bar. */
  lemma SpacerIsPainted(gutter: Bytes, code: Bytes, out: Bytes)
    requires Blank(gutter) && Painted(out, Pieces(gutter + ([0x7C] + code)))
    requires Trimmed(code) == [] || exists i :: 0 <= i < |Trimmed(code)| && Trimmed(code)[i] != 0x5E
    ensures exists lua :: SpansOf(lua, code, |code|) && out == (BOLD + BLUE + (gutter + [0x7C]) + RESET) + RenderAll(lua)
  {
    TrimmedIs(gutter, [], []);
    assert gutter + [] + [] == gutter;
    SpacerPieces(gutter, code);
    SnippetRendered(Pieces(gutter + ([0x7C] + code)), gutter + [0x7C], code, out);
  }

  lemma SpacerPieces(gutter: Bytes, code: Bytes)
    requires Blank(gutter) && Trimmed(gutter) == []
    requires Trimmed(code) == [] || exists i :: 0 <= i < |Trimmed(code)| && Trimmed(code)[i] != 0x5E
    ensures Pieces(gutter + ([0x7C] + code)) == GutterLine(gutter, code)
  {
    BehindBar(gutter, code);
    assert !IsCaretLine(gutter, code) && IsGutter(gutter);
  }

  lemma SnippetOf(gutter: Bytes, number: Bytes, code: Bytes, pieces: seq<Piece>, out: Bytes)
    requires 0x7C !in gutter && Trimmed(gutter) == number
    requires number != [] && forall i :: 0 <= i < |number| ==> 0x30 <= number[i] <= 0x39
    requires var line := gutter + ([0x7C] + code); FrontPieces(line[..IndentOf(line)], line[IndentOf(line)..]).None?
    requires pieces == Pieces(gutter + ([0x7C] + code)) && Painted(out, pieces)
    ensures exists lua :: SpansOf(lua, code, |code|) && out == (BOLD + BLUE + (gutter + [0x7C]) + RESET) + RenderAll(lua)
  {
    SnippetPieces(gutter, number, code);
    SnippetRendered(pieces, gutter + [0x7C], code, out);
  }

  lemma GutterIs(before: Bytes, number: Bytes, after: Bytes)
    requires Blank(before) && Blank(after)
    requires number != [] && forall i :: 0 <= i < |number| ==> 0x30 <= number[i] <= 0x39
    ensures 0x7C !in before + number + after && Trimmed(before + number + after) == number
  {
    TrimmedIs(before, number, after);
  }

  lemma SnippetRendered(pieces: seq<Piece>, gutter: Bytes, code: Bytes, out: Bytes)
    requires pieces == [Two(BOLD, BLUE, gutter), Lua(code)] && Painted(out, pieces)
    ensures exists lua :: SpansOf(lua, code, |code|) && out == (BOLD + BLUE + gutter + RESET) + RenderAll(lua)
  {
    var lua :| LuaSpans(pieces, lua) && out == RenderPieces(pieces, lua);
    Render2(Two(BOLD, BLUE, gutter), Lua(code), lua);
    assert pieces[1] == Lua(code);
  }

  lemma SnippetPieces(gutter: Bytes, number: Bytes, code: Bytes)
    requires 0x7C !in gutter && Trimmed(gutter) == number
    requires number != [] && forall i :: 0 <= i < |number| ==> 0x30 <= number[i] <= 0x39
    requires var line := gutter + ([0x7C] + code); FrontPieces(line[..IndentOf(line)], line[IndentOf(line)..]).None?
    ensures Pieces(gutter + ([0x7C] + code)) == GutterLine(gutter, code)
  {
    FirstBar(gutter, code);
    assert !IsCaretLine(gutter, code) && IsGutter(gutter);
  }

  lemma NumberFirst(before: Bytes, number: Bytes, after: Bytes, code: Bytes, line: Bytes)
    requires Blank(before) && number != [] && 0x30 <= number[0] <= 0x39
    requires line == before + number + after + ([0x7C] + code)
    ensures FrontPieces(line[..IndentOf(line)], line[IndentOf(line)..]).None?
  {
    var trimmed := number + after + ([0x7C] + code);
    assert line == before + trimmed;
    assert trimmed[0] == number[0];
    IndentIs(before, trimmed);
    assert line[|before|..] == trimmed;
    OtherFirst(trimmed);
    NoFrontIs(line[..|before|], trimmed);
  }

  // ------------------------------------------------- lines of no other shape

  lemma {:induction false} IndentBefore(s: Bytes, i: nat)
    requires i < |s| && 0x21 <= s[i] <= 0x7E
    ensures IndentOf(s) <= i
    decreases |s|
  {
    var w := SpaceAtStart(s);
    if w > 0 {
      assert w <= i;
      IndentBefore(s[w..], i - w);
    }
  }

  lemma {:induction false} EndAfter(s: Bytes, i: nat)
    requires i < |s| && 0x21 <= s[i] <= 0x7E
    ensures i < |TrimmedEnd(s)| <= |s| && TrimmedEnd(s) == s[..|TrimmedEnd(s)|]
    decreases |s|
  {
    var w := SpaceAtEnd(s);
    if w > 0 {
      assert i < |s| - w;
      EndAfter(s[..|s| - w], i);
    }
  }

  /** Trimming removes no visible character. */
  lemma InkIsKept(s: Bytes, i: nat)
    requires i < |s| && 0x21 <= s[i] <= 0x7E
    ensures IndentOf(s) <= i && i - IndentOf(s) < |Trimmed(s)| && Trimmed(s)[i - IndentOf(s)] == s[i]
  {
    IndentBefore(s, i);
    EndAfter(s[IndentOf(s)..], i - IndentOf(s));
  }

  /** No bar at all, or a visible character before it that is no digit. */
  ghost predicate NoGutter(line: Bytes) {
    0x7C in line ==>
      exists i :: 0 <= i < |line| && 0x21 <= line[i] <= 0x7E && !(0x30 <= line[i] <= 0x39) && 0x7C !in line[..i + 1]
  }

  lemma InkIsNoGutter(gutter: Bytes, i: nat)
    requires i < |gutter| && 0x21 <= gutter[i] <= 0x7E && !(0x30 <= gutter[i] <= 0x39)
    ensures Trimmed(gutter) != [] && !IsGutter(gutter)
  {
    InkIsKept(gutter, i);
  }

  lemma BarIsLater(line: Bytes, bar: nat, i: nat)
    requires i < |line| && bar < |line| && line[bar] !in line[..i + 1]
    ensures i < bar
  {
    assert forall k :: 0 <= k <= i ==> line[..i + 1][k] == line[k];
  }

  lemma NoGutterIs(line: Bytes)
    requires NoGutter(line)
    ensures BarPieces(line).None?
  {
    var bar := IndexOf(line, BAR);
    if bar < |line| {
      var i :| 0 <= i < |line| && 0x21 <= line[i] <= 0x7E && !(0x30 <= line[i] <= 0x39) && 0x7C !in line[..i + 1];
      assert BAR !in line[..i + 1] && line[bar] == BAR;
      BarIsLater(line, bar, i);
      InkIsNoGutter(line[..bar], i);
    }
  }

  /** The shapes tried first: a headline, a location, a caret line, a numbered line. */
  ghost predicate ShapedEarlier(line: Bytes) {
    !NoFront(line[IndentOf(line)..]) || !NoGutter(line)
  }

  lemma NotShapedEarlier(line: Bytes)
    requires !ShapedEarlier(line)
    ensures Pieces(line) == OtherPieces(line, line[..IndentOf(line)], line[IndentOf(line)..])
  {
    NoFrontIs(line[..IndentOf(line)], line[IndentOf(line)..]);
    NoGutterIs(line);
  }

  /** A traceback's header, and a frame, which starts with a tab: dimmed. */
  lemma TracebackIsPainted(line: Bytes, out: Bytes)
    requires !ShapedEarlier(line) && Painted(out, Pieces(line))
    requires
      || (line != [] && line[0] == 9)
      || TRACEBACK <= line[IndentOf(line)..]
    ensures out == DIM + line + RESET
  {
    NotShapedEarlier(line);
    DimPieces(line, Pieces(line));
    Painted1(Pieces(line), One(DIM, line), out);
  }

  lemma DimPieces(line: Bytes, pieces: seq<Piece>)
    requires pieces == OtherPieces(line, line[..IndentOf(line)], line[IndentOf(line)..])
    requires (line != [] && line[0] == 9) || TRACEBACK <= line[IndentOf(line)..]
    ensures pieces == [One(DIM, line)]
  {
  }

  /** The header of the causes: bold behind its indent, which starts with no tab. */
  lemma CausesArePainted(indent: Bytes, out: Bytes)
    requires Blank(indent) && (indent != [] ==> indent[0] != 9)
    requires Painted(out, Pieces(indent + CAUSED_BY))
    ensures out == indent + (BOLD + CAUSED_BY + RESET)
  {
    CausePieces(indent, CAUSED_BY);
    Painted2(Pieces(indent + CAUSED_BY), Plain(indent), One(BOLD, CAUSED_BY), out);
  }

  lemma CausePieces(indent: Bytes, trimmed: Bytes)
    requires Blank(indent) && (indent != [] ==> indent[0] != 9)
    requires trimmed == CAUSED_BY
    ensures Pieces(indent + trimmed) == [Plain(indent), One(BOLD, trimmed)]
  {
    var line := indent + trimmed;
    CauseFirst(trimmed);
    IndentIs(indent, trimmed);
    assert line[..|indent|] == indent && line[|indent|..] == trimmed;
    NoBarIn(indent, trimmed);
    NotShapedEarlier(line);
    assert line[0] == if indent == [] then trimmed[0] else indent[0];
  }

  lemma CauseFirst(trimmed: Bytes)
    requires trimmed == CAUSED_BY
    ensures Inked(trimmed) && trimmed[0] == 0x43 && NoFront(trimmed) && 0x7C !in trimmed && !(TRACEBACK <= trimmed)
  {
    WordsAre();
    OtherFirst(trimmed);
  }

  lemma NoBarIn(indent: Bytes, trimmed: Bytes)
    requires Blank(indent) && 0x7C !in trimmed
    ensures 0x7C !in indent + trimmed
  {
  }

  /** A line no other shape takes: none of those above, a traceback, a frame or the
      header of the causes. */
  ghost predicate Shapeless(line: Bytes) {
    && !ShapedEarlier(line)
    && (line != [] ==> line[0] != 9)
    && !(TRACEBACK <= line[IndentOf(line)..])
    && line[IndentOf(line)..] != CAUSED_BY
  }

  lemma ShapelessIs(line: Bytes)
    requires Shapeless(line)
    ensures Pieces(line) == Embedded(line)
  {
    NotShapedEarlier(line);
  }

  /** A script error named in the middle of a line is painted from its first mention on. */
  lemma MentionIsPainted(head: Bytes, message: Bytes, out: Bytes)
    requires var line := head + (SCRIPT_ERROR + message);
      Shapeless(line) && Painted(out, Pieces(line)) && forall k :: 0 <= k < |head| ==> !(SCRIPT_ERROR <= line[k..])
    ensures out == head + (BOLD + RED + SCRIPT_ERROR + RESET) + (BOLD + message + RESET)
  {
    ShapelessIs(head + (SCRIPT_ERROR + message));
    MentionPieces(head, SCRIPT_ERROR, message);
    Painted3(Pieces(head + (SCRIPT_ERROR + message)), Plain(head), Two(BOLD, RED, SCRIPT_ERROR), One(BOLD, message), out);
  }

  lemma MentionPieces(head: Bytes, word: Bytes, message: Bytes)
    requires word == SCRIPT_ERROR && word != []
    requires var line := head + (word + message); forall k :: 0 <= k < |head| ==> !(word <= line[k..])
    ensures Embedded(head + (word + message)) == Headline(head, word, message)
  {
    var line := head + (word + message);
    assert line[|head|..] == word + message && (word + message)[|word|..] == message && line[..|head|] == head;
    FindTextIs(line, word, |head|);
  }

  lemma {:induction false} FindTextIs(s: Bytes, word: Bytes, at: nat)
    requires at <= |s| && (at < |s| ==> word <= s[at..]) && forall k :: 0 <= k < at ==> !(word <= s[k..])
    ensures FindText(s, word) == at
    decreases |s|
  {
    if at > 0 {
      assert s[0..] == s;
      assert at < |s| ==> s[1..][at - 1..] == s[at..];
      forall k | 0 <= k < at - 1 ensures !(word <= s[1..][k..]) {
        assert s[1..][k..] == s[k + 1..];
      }
      FindTextIs(s[1..], word, at - 1);
    } else if s != [] {
      assert s[0..] == s;
    }
  }

  /** Every other line is written as it is. */
  lemma OthersAreNotPainted(line: Bytes, out: Bytes)
    requires Shapeless(line) && Painted(out, Pieces(line))
    requires forall k :: 0 <= k < |line| ==>
      !(SCRIPT_ERROR <= line[k..])
    ensures out == line
  {
    var word := SCRIPT_ERROR;
    assert SCRIPT_ERROR == word;
    ShapelessIs(line);
    FindTextIs(line, word, |line|);
    Painted1(Pieces(line), Plain(line), out);
  }

  // --------------------------------------------------------------- Lua source

  /** The bytes of words and quotes. */
  lemma BytesAre(b: byte)
    ensures StartsWord(b) <==> 65 <= b <= 90 || 97 <= b <= 122 || b == 95
    ensures InWord(b) <==> 48 <= b <= 57 || 65 <= b <= 90 || 97 <= b <= 122 || b == 95
    ensures IsQuote(b) <==> b == 34 || b == 39
  {
  }

  /** The keywords of Lua 5.4 are exactly these twenty-two. */
  lemma KeywordsAre(word: string)
    requires forall i :: 0 <= i < |word| ==> word[i] < '\U{80}'
    ensures IsKeyword(Ascii(word)) <==> word in LUA_KEYWORDS
    ensures LUA_KEYWORDS == [
      "and", "break", "do", "else", "elseif", "end", "false", "for", "function", "goto", "if",
      "in", "local", "nil", "not", "or", "repeat", "return", "then", "true", "until", "while"]
  {
    forall i | 0 <= i < |LUA_KEYWORDS| ensures Ascii(LUA_KEYWORDS[i]) == Ascii(word) <==> LUA_KEYWORDS[i] == word {
      KeywordIsAscii(i);
      AsciiOnce(LUA_KEYWORDS[i], word);
    }
  }

  lemma KeywordIsAscii(i: nat)
    requires i < |LUA_KEYWORDS|
    ensures forall k :: 0 <= k < |LUA_KEYWORDS[i]| ==> LUA_KEYWORDS[i][k] < '\U{80}'
  {
  }

  lemma AsciiOnce(a: string, b: string)
    requires forall i :: 0 <= i < |a| ==> a[i] < '\U{80}'
    requires forall i :: 0 <= i < |b| ==> b[i] < '\U{80}'
    ensures Ascii(a) == Ascii(b) ==> a == b
  {
    if Ascii(a) == Ascii(b) {
      assert |Ascii(a)| == |a| && |Ascii(b)| == |b|;
      forall i | 0 <= i < |a| ensures a[i] == b[i] {
        assert Ascii(a)[i] as int == a[i] as int && Ascii(b)[i] as int == b[i] as int;
      }
    }
  }

  /** The codes around each kind of span: comments dim green, strings green,
      keywords magenta, the rest as it is. */
  lemma SpanIsPainted(span: Span)
    ensures Render(span) == match span
      case Comment(text) => DIM + GREEN + text + RESET
      case Quoted(text) => GREEN + text + RESET
      case Keyword(text) => MAGENTA + text + RESET
      case Word(text) => text
      case Other(text) => text
  {
  }
}
