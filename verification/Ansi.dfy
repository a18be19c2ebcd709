/** UTF-8 text as bytes, the palette of escape codes, and their removal. */
module Ansi {
  import opened Basics

  const ESC: byte := 0x1B
  const CODE_END: byte := 0x6D

  const RESET: Bytes := [0x1B, 0x5B, 0x30, 0x6D]
  const BOLD: Bytes := [0x1B, 0x5B, 0x31, 0x6D]
  const DIM: Bytes := [0x1B, 0x5B, 0x32, 0x6D]
  const RED: Bytes := [0x1B, 0x5B, 0x33, 0x31, 0x6D]
  const GREEN: Bytes := [0x1B, 0x5B, 0x33, 0x32, 0x6D]
  const MAGENTA: Bytes := [0x1B, 0x5B, 0x33, 0x35, 0x6D]
  const CYAN: Bytes := [0x1B, 0x5B, 0x33, 0x36, 0x6D]
  const BLUE: Bytes := [0x1B, 0x5B, 0x33, 0x34, 0x6D]

  /** The bytes of an ASCII literal. */
  function Ascii(s: string): Bytes {
    seq(|s|, i requires 0 <= i < |s| => if s[i] < '\U{80}' then s[i] as int as byte else 0x3F)
  }

  // ----------------------------------------------------------------- UTF-8

  predicate IsContinuation(b: byte) { 0x80 <= b < 0xC0 }

  predicate IsBoundary(s: Bytes, i: nat) {
    i <= |s| && (i < |s| ==> !IsContinuation(s[i]))
  }

  /** The bytes a character takes, from its first. */
  function Width(lead: byte): nat {
    if lead < 0xC0 then 1 else if lead < 0xE0 then 2 else if lead < 0xF0 then 3 else 4
  }

  /** Leads and continuations follow each other as in UTF-8: every string the standard
      library accepts is like this. */
  ghost predicate Utf8(s: Bytes) {
    IsBoundary(s, 0) && forall i :: 0 <= i < |s| ==> WholeCharacter(s, i)
  }

  /** A character that starts at `i` goes on with continuations and ends where
      another may start. */
  ghost predicate WholeCharacter(s: Bytes, i: nat)
    requires i < |s|
  {
    !IsContinuation(s[i]) ==>
      IsBoundary(s, i + Width(s[i])) && forall j :: i < j < i + Width(s[i]) ==> IsContinuation(s[j])
  }

  /** `&s[i..j]`, which panics off a character boundary. */
  function Slice(s: Bytes, i: nat, j: nat): Bytes
    requires i <= j && IsBoundary(s, i) && IsBoundary(s, j)
  {
    s[i..j]
  }

  // ---------------------------------------------------------------- erasing

  /** Just past the first end of a code. */
  function CodeLength(s: Bytes): (n: nat)
    requires s != []
    ensures 0 < n <= |s|
  {
    if s[0] == CODE_END || |s| == 1 then 1 else 1 + CodeLength(s[1..])
  }

  /** The text without its escape codes. */
  function Erase(s: Bytes): Bytes {
    if s == [] then []
    else if s[0] == ESC then Erase(s[CodeLength(s)..])
    else [s[0]] + Erase(s[1..])
  }

  /** Whether the terminal is left coloured, starting from `lit`. */
  predicate Lit(s: Bytes, lit: bool) {
    if s == [] then lit
    else if s[0] == ESC then Lit(s[CodeLength(s)..], s[..CodeLength(s)] != RESET)
    else Lit(s[1..], lit)
  }

  predicate IsCode(c: Bytes) {
    |c| >= 2 && c[0] == ESC && c[|c| - 1] == CODE_END && forall i :: 0 <= i < |c| - 1 ==> c[i] != CODE_END
  }

  lemma {:induction false} CodeLengthIs(c: Bytes, rest: Bytes)
    requires c != [] && c[|c| - 1] == CODE_END && forall i :: 0 <= i < |c| - 1 ==> c[i] != CODE_END
    ensures CodeLength(c + rest) == |c|
  {
    if |c| > 1 {
      CodeLengthIs(c[1..], rest);
      assert (c + rest)[1..] == c[1..] + rest;
    }
  }

  lemma EraseCode(c: Bytes, rest: Bytes, lit: bool)
    requires IsCode(c)
    ensures Erase(c + rest) == Erase(rest)
    ensures Lit(c + rest, lit) == Lit(rest, c != RESET)
  {
    CodeLengthIs(c, rest);
    assert (c + rest)[|c|..] == rest && (c + rest)[..|c|] == c;
  }

  lemma {:induction false} ErasePlain(text: Bytes, rest: Bytes, lit: bool)
    requires ESC !in text
    ensures Erase(text + rest) == text + Erase(rest)
    ensures Lit(text + rest, lit) == Lit(rest, lit)
  {
    if text == [] {
      assert text + rest == rest;
    } else {
      assert text[0] in text;
      assert (text + rest)[1..] == text[1..] + rest;
      ErasePlain(text[1..], rest, lit);
      assert text + Erase(rest) == [text[0]] + (text[1..] + Erase(rest));
    }
  }

  /** Before `rest`, `out` erases to `text` and leaves the terminal uncoloured. */
  predicate PaintsBefore(out: Bytes, text: Bytes, rest: Bytes) {
    Erase(out + rest) == text + Erase(rest) && Lit(out + rest, false) == Lit(rest, false)
  }

  /** What painting promises of its output, whatever follows it. */
  ghost predicate Paints(out: Bytes, text: Bytes) {
    forall rest :: PaintsBefore(out, text, rest)
  }

  lemma PaintsWhole(out: Bytes, text: Bytes)
    requires Paints(out, text)
    ensures Erase(out) == text && !Lit(out, false)
  {
    assert PaintsBefore(out, text, []);
    assert out + [] == out && text + Erase([]) == text;
  }

  lemma PaintsPlain(text: Bytes)
    requires ESC !in text
    ensures Paints(text, text)
  {
    forall rest ensures PaintsBefore(text, text, rest) {
      ErasePlain(text, rest, false);
    }
  }

  lemma PaintsAppend(a: Bytes, s: Bytes, b: Bytes, t: Bytes)
    requires Paints(a, s) && Paints(b, t)
    ensures Paints(a + b, s + t)
  {
    forall rest ensures PaintsBefore(a + b, s + t, rest) {
      assert PaintsBefore(b, t, rest) && PaintsBefore(a, s, b + rest);
      assert (a + b) + rest == a + (b + rest);
      assert (s + t) + Erase(rest) == s + (t + Erase(rest));
    }
  }

  /** A code, a text, and a reset. */
  lemma PaintsColoured(code: Bytes, text: Bytes)
    requires IsCode(code) && ESC !in text
    ensures Paints(code + text + RESET, text)
  {
    var out := code + text + RESET;
    forall rest ensures PaintsBefore(out, text, rest) {
      assert out + rest == code + (text + (RESET + rest));
      EraseCode(code, text + (RESET + rest), false);
      ErasePlain(text, RESET + rest, code != RESET);
      EraseCode(RESET, rest, code != RESET);
    }
  }

  /** Another code in front changes nothing. */
  lemma PaintsTwice(first: Bytes, code: Bytes, text: Bytes)
    requires IsCode(first) && IsCode(code) && ESC !in text
    ensures Paints(first + code + text + RESET, text)
  {
    var out := first + code + text + RESET;
    forall rest ensures PaintsBefore(out, text, rest) {
      var tail := text + (RESET + rest);
      assert out + rest == first + (code + tail);
      EraseCode(first, code + tail, false);
      EraseCode(code, tail, first != RESET);
      ErasePlain(text, RESET + rest, code != RESET);
      EraseCode(RESET, rest, code != RESET);
    }
  }
}
