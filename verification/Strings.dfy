/** Searching, splitting and trimming, as the standard library does them. */
module Strings {
  /** The first position of `x`, or the length when it is missing. */
  function IndexOf<T(==)>(s: seq<T>, x: T): (at: nat)
    ensures at <= |s|
    ensures at < |s| ==> s[at] == x
    ensures forall i :: 0 <= i < at ==> s[i] != x
  {
    if s == [] || s[0] == x then 0 else 1 + IndexOf(s[1..], x)
  }

  /** The last position of `x`, or the length when it is missing. */
  function LastIndexOf<T(==)>(s: seq<T>, x: T): (at: nat)
    ensures at <= |s|
    ensures at < |s| ==> s[at] == x && forall i :: at < i < |s| ==> s[i] != x
    ensures at == |s| ==> x !in s
  {
    if s == [] then 0
    else if s[|s| - 1] == x then |s| - 1
    else
      var at := LastIndexOf(s[..|s| - 1], x);
      if at == |s| - 1 then |s| else at
  }

  /** The pieces between separators; there is always at least one. */
  function Split<T(==)>(s: seq<T>, sep: T): (pieces: seq<seq<T>>)
    ensures |pieces| >= 1
    decreases |s|
  {
    var at := IndexOf(s, sep);
    if at == |s| then [s] else [s[..at]] + Split(s[at + 1..], sep)
  }

  function Join<T>(pieces: seq<seq<T>>, sep: T): seq<T> {
    if pieces == [] then []
    else if |pieces| == 1 then pieces[0]
    else pieces[0] + [sep] + Join(pieces[1..], sep)
  }

  lemma IndexIs<T>(s: seq<T>, x: T, at: nat)
    requires at <= |s| && (at < |s| ==> s[at] == x) && forall i :: 0 <= i < at ==> s[i] != x
    ensures IndexOf(s, x) == at
  {
  }

  lemma LastIndexIs<T>(s: seq<T>, x: T, at: nat)
    requires at < |s| && s[at] == x && forall i :: at < i < |s| ==> s[i] != x
    ensures LastIndexOf(s, x) == at
  {
  }

  /** Splitting undoes joining when no piece holds the separator. */
  lemma {:induction false} SplitJoin<T>(pieces: seq<seq<T>>, sep: T)
    requires |pieces| >= 1 && forall i :: 0 <= i < |pieces| ==> sep !in pieces[i]
    ensures Split(Join(pieces, sep), sep) == pieces
  {
    var s := Join(pieces, sep);
    if |pieces| == 1 {
      IndexIs(s, sep, |s|);
    } else {
      var rest := Join(pieces[1..], sep);
      assert s == pieces[0] + [sep] + rest;
      IndexIs(s, sep, |pieces[0]|);
      assert s[..|pieces[0]|] == pieces[0] && s[|pieces[0]| + 1..] == rest;
      SplitJoin(pieces[1..], sep);
    }
  }

  /** Characters with the White_Space property. */
  predicate IsSpace(c: char) {
    || '\t' <= c <= '\r' || c == ' ' || c == '\U{85}' || c == '\U{A0}' || c == '\U{1680}'
    || '\U{2000}' <= c <= '\U{200A}' || c == '\U{2028}' || c == '\U{2029}' || c == '\U{202F}'
    || c == '\U{205F}' || c == '\U{3000}'
  }

  /** Among ASCII characters: the tab, the next four, and the blank. */
  lemma AsciiSpaces(c: char)
    ensures c as int < 128 ==> (IsSpace(c) <==> 9 <= c as int <= 13 || c as int == 32)
  {
  }

  function TrimStart(s: string): string {
    if s != [] && IsSpace(s[0]) then TrimStart(s[1..]) else s
  }

  function TrimEnd(s: string): string {
    if s != [] && IsSpace(s[|s| - 1]) then TrimEnd(s[..|s| - 1]) else s
  }

  function Trim(s: string): string { TrimEnd(TrimStart(s)) }

  lemma TrimNothing(s: string)
    requires s != [] ==> !IsSpace(s[0]) && !IsSpace(s[|s| - 1])
    ensures Trim(s) == s
  {
  }
}
