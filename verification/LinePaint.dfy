/** Painting a diagnostic line by its shape, and a whole text line by line. */
module LinePaint {
  import opened Basics
  import opened Strings
  import opened Ansi
  import opened LuaPaint

  const BAR: byte := 0x7C
  const CARET: byte := 0x5E
  const TAB: byte := 0x09
  const NEWLINE: byte := 0x0A
  const RETURN: byte := 0x0D

  // ------------------------------------------------------------ white space

  /** The bytes of the white-space character a text starts with, or none. */
  function SpaceAtStart(s: Bytes): nat {
    if |s| >= 1 && (0x09 <= s[0] <= 0x0D || s[0] == 0x20) then 1
    else if |s| >= 2 && s[0] == 0xC2 && (s[1] == 0x85 || s[1] == 0xA0) then 2
    else if |s| >= 3 && IsWideSpace(s[0], s[1], s[2]) then 3
    else 0
  }

  function SpaceAtEnd(s: Bytes): nat {
    var n := |s|;
    if n >= 1 && (0x09 <= s[n - 1] <= 0x0D || s[n - 1] == 0x20) then 1
    else if n >= 2 && s[n - 2] == 0xC2 && (s[n - 1] == 0x85 || s[n - 1] == 0xA0) then 2
    else if n >= 3 && IsWideSpace(s[n - 3], s[n - 2], s[n - 1]) then 3
    else 0
  }

  predicate IsWideSpace(a: byte, b: byte, c: byte) {
    || (a == 0xE1 && b == 0x9A && c == 0x80)
    || (a == 0xE2 && b == 0x80 && (0x80 <= c <= 0x8A || c == 0xA8 || c == 0xA9 || c == 0xAF))
    || (a == 0xE2 && b == 0x81 && c == 0x9F)
    || (a == 0xE3 && b == 0x80 && c == 0x80)
  }

  /** How much white space a text starts with. */
  function IndentOf(s: Bytes): (n: nat)
    ensures n <= |s|
  {
    var w := SpaceAtStart(s);
    if w == 0 then 0 else w + IndentOf(s[w..])
  }

  function TrimmedEnd(s: Bytes): Bytes {
    var w := SpaceAtEnd(s);
    if w == 0 then s else TrimmedEnd(s[..|s| - w])
  }

  function Trimmed(s: Bytes): Bytes { TrimmedEnd(s[IndentOf(s)..]) }

  // ----------------------------------------------------------------- shapes

  const ERROR_CAP: Bytes := Ascii("Error:")
  const SCRIPT_ERROR: Bytes := Ascii("script error:")
  const ERROR: Bytes := Ascii("error:")
  const ARROW: Bytes := Ascii("--> ")
  const TRACEBACK: Bytes := Ascii("stack traceback:")
  const CAUSED_BY: Bytes := Ascii("Caused by:")

  /** The first place where `word` occurs, or the length. */
  function FindText(s: Bytes, word: Bytes): (at: nat)
    ensures at <= |s|
    ensures at < |s| ==> word <= s[at..]
  {
    if s == [] || word <= s then 0 else 1 + FindText(s[1..], word)
  }

  /** A piece of an output line: a text with no, one or two codes around it, or Lua source. */
  datatype Piece = Plain(text: Bytes) | One(code: Bytes, text: Bytes) | Two(first: Bytes, code: Bytes, text: Bytes)
                 | Lua(text: Bytes)

  function Headline(indent: Bytes, marker: Bytes, message: Bytes): seq<Piece> {
    [Plain(indent), Two(BOLD, RED, marker), One(BOLD, message)]
  }

  function Marker(s: Bytes): Option<Bytes> {
    if ERROR_CAP <= s then Some(ERROR_CAP)
    else if SCRIPT_ERROR <= s then Some(SCRIPT_ERROR)
    else if ERROR <= s then Some(ERROR)
    else None
  }

  predicate IsCaretLine(gutter: Bytes, rest: Bytes) {
    Trimmed(gutter) == [] && Trimmed(rest) != [] && forall i :: 0 <= i < |Trimmed(rest)| ==> Trimmed(rest)[i] == CARET
  }

  predicate IsGutter(gutter: Bytes) {
    forall i :: 0 <= i < |Trimmed(gutter)| ==> 0x30 <= Trimmed(gutter)[i] <= 0x39
  }

  function Location(indent: Bytes, trimmed: Bytes): seq<Piece>
    requires ARROW <= trimmed
  {
    [Plain(indent), Two(BOLD, BLUE, trimmed[..3]), Plain(trimmed[3..4]), One(CYAN, trimmed[4..])]
  }

  function CaretLine(gutter: Bytes, rest: Bytes): seq<Piece> {
    [Plain(gutter), Two(BOLD, BLUE, [BAR]), Two(BOLD, RED, rest)]
  }

  function GutterLine(gutter: Bytes, code: Bytes): seq<Piece> {
    [Two(BOLD, BLUE, gutter + [BAR]), Lua(code)]
  }

  /** A headline in the middle of a line, painted from its marker on. */
  function Embedded(line: Bytes): seq<Piece> {
    var at := FindText(line, SCRIPT_ERROR);
    if at < |line| then Headline(line[..at], SCRIPT_ERROR, line[at..][|SCRIPT_ERROR|..]) else [Plain(line)]
  }

  /** A line known by what follows its indent: a headline or a location. */
  function FrontPieces(indent: Bytes, trimmed: Bytes): Option<seq<Piece>> {
    var marker := Marker(trimmed);
    if marker.Some? then Some(Headline(indent, marker.value, trimmed[|marker.value|..]))
    else if ARROW <= trimmed then Some(Location(indent, trimmed))
    else None
  }

  /** A line known by its first bar: carets under a snippet, or the snippet itself. */
  function BarPieces(line: Bytes): Option<seq<Piece>> {
    var bar := IndexOf(line, BAR);
    if bar == |line| then None
    else if IsCaretLine(line[..bar], line[bar + 1..]) then Some(CaretLine(line[..bar], line[bar + 1..]))
    else if IsGutter(line[..bar]) then Some(GutterLine(line[..bar], line[bar + 1..]))
    else None
  }

  function OtherPieces(line: Bytes, indent: Bytes, trimmed: Bytes): seq<Piece> {
    if TRACEBACK <= trimmed || [TAB] <= line then [One(DIM, line)]
    else if trimmed == CAUSED_BY then [Plain(indent), One(BOLD, CAUSED_BY)]
    else Embedded(line)
  }

  /** How a line is painted, decided by its shape. */
  function Pieces(line: Bytes): seq<Piece> {
    var indent, trimmed := line[..IndentOf(line)], line[IndentOf(line)..];
    match FrontPieces(indent, trimmed)
    case Some(pieces) => pieces
    case None =>
      match BarPieces(line)
      case Some(pieces) => pieces
      case None => OtherPieces(line, indent, trimmed)
  }

  function Texts(pieces: seq<Piece>): Bytes {
    if pieces == [] then [] else pieces[0].text + Texts(pieces[1..])
  }

  /** Whatever its shape, the pieces of a line are the line. */
  lemma PiecesAreTheLine(line: Bytes)
    ensures Texts(Pieces(line)) == line
  {
    var indent, trimmed := line[..IndentOf(line)], line[IndentOf(line)..];
    assert line == indent + trimmed;
    FrontText(indent, trimmed);
    BarPiecesText(line);
    OtherText(line, indent, trimmed);
  }

  lemma FrontText(indent: Bytes, trimmed: Bytes)
    ensures FrontPieces(indent, trimmed).Some? ==> Texts(FrontPieces(indent, trimmed).value) == indent + trimmed
  {
    if Marker(trimmed).Some? {
      HeadlineText(indent, Marker(trimmed).value, trimmed);
    } else if ARROW <= trimmed {
      UnrollTexts(Location(indent, trimmed));
      assert trimmed == trimmed[..3] + (trimmed[3..4] + trimmed[4..]);
    }
  }

  lemma BarPiecesText(line: Bytes)
    ensures BarPieces(line).Some? ==> Texts(BarPieces(line).value) == line
  {
    var bar := IndexOf(line, BAR);
    if bar < |line| {
      BarAround(line, bar);
    }
  }

  lemma BarAround(line: Bytes, bar: nat)
    requires bar < |line| && line[bar] == BAR
    ensures Texts(CaretLine(line[..bar], line[bar + 1..])) == line
    ensures Texts(GutterLine(line[..bar], line[bar + 1..])) == line
  {
    BarText(line[..bar], line[bar + 1..]);
    assert line == line[..bar] + [BAR] + line[bar + 1..];
  }

  lemma OtherText(line: Bytes, indent: Bytes, trimmed: Bytes)
    requires line == indent + trimmed
    ensures Texts(OtherPieces(line, indent, trimmed)) == line
  {
    if TRACEBACK <= trimmed || [TAB] <= line || trimmed == CAUSED_BY {
      UnrollTexts(OtherPieces(line, indent, trimmed));
    } else {
      EmbeddedText(line);
    }
  }

  lemma HeadlineText(indent: Bytes, marker: Bytes, rest: Bytes)
    requires marker <= rest
    ensures Texts(Headline(indent, marker, rest[|marker|..])) == indent + rest
  {
    UnrollTexts(Headline(indent, marker, rest[|marker|..]));
    assert rest == marker + rest[|marker|..];
  }

  lemma BarText(gutter: Bytes, rest: Bytes)
    ensures Texts(CaretLine(gutter, rest)) == gutter + [BAR] + rest
    ensures Texts(GutterLine(gutter, rest)) == gutter + [BAR] + rest
  {
    UnrollTexts(CaretLine(gutter, rest));
    UnrollTexts(GutterLine(gutter, rest));
    assert gutter + ([BAR] + rest) == gutter + [BAR] + rest;
  }

  lemma EmbeddedText(line: Bytes)
    ensures Texts(Embedded(line)) == line
  {
    var at := FindText(line, SCRIPT_ERROR);
    UnrollTexts(Embedded(line));
    if at < |line| {
      HeadlineText(line[..at], SCRIPT_ERROR, line[at..]);
    }
  }

  lemma UnrollTexts(pieces: seq<Piece>)
    ensures |pieces| == 1 ==> Texts(pieces) == pieces[0].text
    ensures |pieces| == 2 ==> Texts(pieces) == pieces[0].text + pieces[1].text
    ensures |pieces| == 3 ==> Texts(pieces) == pieces[0].text + (pieces[1].text + pieces[2].text)
    ensures |pieces| == 4 ==> Texts(pieces) == pieces[0].text + (pieces[1].text + (pieces[2].text + pieces[3].text))
  {
    if |pieces| > 1 {
      UnrollTexts(pieces[1..]);
    }
  }

  // ---------------------------------------------------------------- painting

  function RenderPiece(piece: Piece, lua: seq<Span>): Bytes {
    match piece
    case Plain(text) => text
    case One(code, text) => code + text + RESET
    case Two(first, code, text) => first + code + text + RESET
    case Lua(_) => RenderAll(lua)
  }

  function RenderPieces(pieces: seq<Piece>, lua: seq<Span>): Bytes {
    if pieces == [] then [] else RenderPieces(pieces[..|pieces| - 1], lua) + RenderPiece(pieces[|pieces| - 1], lua)
  }

  /** `lua` are the spans of the Lua source among the pieces, if there is any. */
  ghost predicate LuaSpans(pieces: seq<Piece>, lua: seq<Span>) {
    forall i :: 0 <= i < |pieces| && pieces[i].Lua? ==> SpansOf(lua, pieces[i].text, |pieces[i].text|)
  }

  ghost predicate NoLua(pieces: seq<Piece>) { forall i :: 0 <= i < |pieces| ==> !pieces[i].Lua? }

  /** The pieces of a snippet line: a gutter, and source that starts at a character. */
  ghost predicate Snippet(pieces: seq<Piece>) {
    |pieces| == 2 && !pieces[0].Lua? && pieces[1].Lua? && Utf8(pieces[1].text)
  }

  lemma FrontHasNoLua(indent: Bytes, trimmed: Bytes)
    ensures FrontPieces(indent, trimmed).Some? ==> NoLua(FrontPieces(indent, trimmed).value)
  {
  }

  lemma CodeBehindBar(line: Bytes, bar: nat)
    requires Utf8(line) && bar < |line| && line[bar] == BAR
    ensures NoLua(CaretLine(line[..bar], line[bar + 1..])) && Snippet(GutterLine(line[..bar], line[bar + 1..]))
  {
    Utf8After(line, bar);
  }

  lemma BarSnippet(line: Bytes)
    requires Utf8(line) && BarPieces(line).Some?
    ensures NoLua(BarPieces(line).value) || Snippet(BarPieces(line).value)
  {
    CodeBehindBar(line, IndexOf(line, BAR));
  }

  lemma OtherHasNoLua(line: Bytes, indent: Bytes, trimmed: Bytes)
    ensures NoLua(OtherPieces(line, indent, trimmed))
  {
    assert NoLua(Embedded(line));
  }

  /** Lua source appears only behind a gutter, and starts at a character there. */
  lemma LuaIsBehindGutter(line: Bytes)
    requires Utf8(line)
    ensures NoLua(Pieces(line)) || Snippet(Pieces(line))
  {
    var indent, trimmed := line[..IndentOf(line)], line[IndentOf(line)..];
    FrontHasNoLua(indent, trimmed);
    OtherHasNoLua(line, indent, trimmed);
    if BarPieces(line).Some? {
      BarSnippet(line);
    }
  }

  lemma Utf8After(s: Bytes, at: nat)
    requires Utf8(s) && at < |s| && s[at] < 0x80
    ensures Utf8(s[at + 1..])
  {
    var rest := s[at + 1..];
    AfterAscii(s, at);
    forall i | 0 <= i < |rest| ensures WholeCharacter(rest, i) {
      assert WholeCharacter(s, at + 1 + i);
    }
  }

  /** `out` is the pieces, painted, in order, with Lua source highlighted. */
  ghost predicate Painted(out: Bytes, pieces: seq<Piece>) {
    exists lua :: LuaSpans(pieces, lua) && out == RenderPieces(pieces, lua)
  }

  method PaintLine(line: Bytes) returns (out: Bytes)
    requires Utf8(line)
    ensures Painted(out, Pieces(line))
    ensures ESC !in line ==> Paints(out, line) && Erase(out) == line && !Lit(out, false)
  {
    var pieces := Pieces(line);
    LuaIsBehindGutter(line);
    if |pieces| == 2 && pieces[1].Lua? {
      var painted := PaintLua(pieces[1].text);
      out := RenderPiece(pieces[0], []) + painted;
      GutterPainted(pieces, painted);
    } else {
      out := RenderPieces(pieces, []);
      assert LuaSpans(pieces, []);
    }
    if ESC !in line {
      PaintedKeepsText(out, line);
    }
  }

  lemma SameFirst(piece: Piece, lua: seq<Span>)
    requires !piece.Lua?
    ensures RenderPiece(piece, lua) == RenderPiece(piece, [])
  {
  }

  lemma GutterPainted(pieces: seq<Piece>, painted: Bytes)
    requires |pieces| == 2 && pieces[1].Lua? && !pieces[0].Lua? && Highlights(painted, pieces[1].text)
    ensures Painted(RenderPiece(pieces[0], []) + painted, pieces)
  {
    var lua :| SpansOf(lua, pieces[1].text, |pieces[1].text|) && painted == RenderAll(lua);
    UnrollPieces(pieces, lua);
    SameFirst(pieces[0], lua);
    assert LuaSpans(pieces, lua);
  }

  lemma PaintedKeepsText(out: Bytes, line: Bytes)
    requires ESC !in line && Painted(out, Pieces(line))
    ensures Paints(out, line) && Erase(out) == line && !Lit(out, false)
  {
    var lua :| LuaSpans(Pieces(line), lua) && out == RenderPieces(Pieces(line), lua);
    PaintedLineKeepsText(line, lua);
  }

  lemma UnrollPieces(pieces: seq<Piece>, lua: seq<Span>)
    requires |pieces| == 2
    ensures RenderPieces(pieces, lua) == RenderPiece(pieces[0], lua) + RenderPiece(pieces[1], lua)
  {
    var one := pieces[..1];
    assert one[..0] == [] && one[0] == pieces[0];
    assert RenderPieces(one, lua) == [] + RenderPiece(pieces[0], lua);
  }

  // --------------------------------------------------------- what it means

  ghost predicate ProperPiece(piece: Piece) {
    && ESC !in piece.text
    && (piece.One? ==> IsCode(piece.code))
    && (piece.Two? ==> IsCode(piece.first) && IsCode(piece.code))
  }

  lemma PiecePaints(piece: Piece, lua: seq<Span>)
    requires ProperPiece(piece) && (piece.Lua? ==> SpansOf(lua, piece.text, |piece.text|))
    ensures Paints(RenderPiece(piece, lua), piece.text)
  {
    match piece
    case Plain(text) => PaintsPlain(text);
    case One(code, text) => PaintsColoured(code, text);
    case Two(first, code, text) => PaintsTwice(first, code, text);
    case Lua(text) => PaintingKeepsText(lua, text);
  }

  lemma {:induction false} PiecesPaint(pieces: seq<Piece>, lua: seq<Span>)
    requires LuaSpans(pieces, lua) && forall i :: 0 <= i < |pieces| ==> ProperPiece(pieces[i])
    ensures Paints(RenderPieces(pieces, lua), Texts(pieces))
  {
    if pieces == [] {
      PaintsPlain([]);
    } else {
      var init, last := pieces[..|pieces| - 1], pieces[|pieces| - 1];
      PiecesPaint(init, lua);
      PiecePaints(last, lua);
      PaintsAppend(RenderPieces(init, lua), Texts(init), RenderPiece(last, lua), last.text);
      TextsSnoc(pieces);
    }
  }

  lemma {:induction false} TextsSnoc(pieces: seq<Piece>)
    requires pieces != []
    ensures Texts(pieces) == Texts(pieces[..|pieces| - 1]) + pieces[|pieces| - 1].text
  {
    if |pieces| > 1 {
      TextsSnoc(pieces[1..]);
      assert pieces[1..][..|pieces| - 2] == pieces[..|pieces| - 1][1..];
    }
  }

  lemma {:induction false} PieceTextsIn(pieces: seq<Piece>, i: nat, b: byte)
    requires i < |pieces| && b in pieces[i].text
    ensures b in Texts(pieces)
  {
    if i > 0 {
      PieceTextsIn(pieces[1..], i - 1, b);
    }
  }

  lemma PiecesProper(line: Bytes)
    requires ESC !in line
    ensures forall i :: 0 <= i < |Pieces(line)| ==> ProperPiece(Pieces(line)[i])
  {
    CodesAreCodes();
    PiecesAreTheLine(line);
    forall i | 0 <= i < |Pieces(line)| ensures ProperPiece(Pieces(line)[i]) {
      if ESC in Pieces(line)[i].text {
        PieceTextsIn(Pieces(line), i, ESC);
      }
      CodesOfPieces(line, i);
    }
  }

  lemma CodesOfPieces(line: Bytes, i: nat)
    requires i < |Pieces(line)|
    ensures var p := Pieces(line)[i];
      && (p.One? ==> p.code in [BOLD, CYAN, DIM])
      && (p.Two? ==> p.first == BOLD && p.code in [RED, BLUE])
  {
  }

  /** Painting a line with no escape codes adds colour and nothing else, whatever its
      shape, and leaves the terminal uncoloured. */
  lemma PaintedLineKeepsText(line: Bytes, lua: seq<Span>)
    requires ESC !in line && LuaSpans(Pieces(line), lua)
    ensures Paints(RenderPieces(Pieces(line), lua), line)
    ensures Erase(RenderPieces(Pieces(line), lua)) == line && !Lit(RenderPieces(Pieces(line), lua), false)
  {
    PiecesProper(line);
    PiecesPaint(Pieces(line), lua);
    PiecesAreTheLine(line);
    PaintsWhole(RenderPieces(Pieces(line), lua), line);
  }
}
