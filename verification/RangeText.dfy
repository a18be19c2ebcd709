/** Which header texts are understood as a byte range, character by character. */
module RangeText {
  import opened Basics
  import opened Strings
  import opened Range
  import Decimal

  predicate Blank(s: string) { forall i :: 0 <= i < |s| ==> IsSpace(s[i]) }

  /** An optional plus and at least one digit, spelling a number of 64 bits. */
  predicate Numeral(s: string, n: nat) {
    var digits := if s != "" && s[0] == '+' then s[1..] else s;
    digits != "" && Decimal.AllDigits(digits) && Decimal.Value(digits) == n && n <= U64_MAX
  }

  /** The texts on both sides of the dash. */
  predicate SidesSay(ask: Ask, a: string, b: string) {
    match ask
    case Last(n) => a == "" && Numeral(b, n)
    case From(start) => Numeral(a, start) && b == ""
    case Span(start, end) => Numeral(a, start) && Numeral(b, end)
  }

  /** Where blanks may stand: around the whole, after the unit, and around the dash. */
  datatype Gaps = Gaps(front: string, unit: string, left: string, right: string, back: string)

  predicate AllBlank(g: Gaps) {
    Blank(g.front) && Blank(g.unit) && Blank(g.left) && Blank(g.right) && Blank(g.back)
  }

  function Spelled(g: Gaps, a: string, b: string): string {
    g.front + UNIT + g.unit + a + g.left + "-" + g.right + b + g.back
  }

  /** `value` asks for it, up to blanks. */
  ghost predicate Asks(value: string, ask: Ask) {
    exists g, a, b :: AllBlank(g) && SidesSay(ask, a, b) && value == Spelled(g, a, b)
  }

  // -------------------------------------------------------------- trimming

  predicate Solid(s: string) { s != "" ==> !IsSpace(s[0]) && !IsSpace(s[|s| - 1]) }

  lemma {:induction false} TrimStartDrops(blank: string, rest: string)
    requires Blank(blank) && (rest != "" ==> !IsSpace(rest[0]))
    ensures TrimStart(blank + rest) == rest
  {
    if blank == "" {
      assert blank + rest == rest;
    } else {
      assert (blank + rest)[1..] == blank[1..] + rest;
      TrimStartDrops(blank[1..], rest);
    }
  }

  lemma {:induction false} TrimEndDrops(rest: string, blank: string)
    requires Blank(blank) && (rest != "" ==> !IsSpace(rest[|rest| - 1]))
    ensures TrimEnd(rest + blank) == rest
  {
    if blank == "" {
      assert rest + blank == rest;
    } else {
      assert (rest + blank)[..|rest + blank| - 1] == rest + blank[..|blank| - 1];
      TrimEndDrops(rest, blank[..|blank| - 1]);
    }
  }

  /** Trimming finds what lies between blanks. */
  lemma TrimIs(s: string, front: string, core: string, back: string)
    requires s == front + core + back && Blank(front) && Blank(back) && Solid(core)
    ensures Trim(s) == core
  {
    if core == "" {
      assert s == front + back + "";
      TrimStartDrops(front + back, "");
    } else {
      assert s == front + (core + back);
      TrimStartDrops(front, core + back);
      TrimEndDrops(core, back);
    }
  }

  lemma {:induction false} TrimStartSplits(s: string) returns (front: string)
    ensures Blank(front) && s == front + TrimStart(s)
    ensures TrimStart(s) != "" ==> !IsSpace(TrimStart(s)[0])
  {
    if s != [] && IsSpace(s[0]) {
      var more := TrimStartSplits(s[1..]);
      front := [s[0]] + more;
      assert s == [s[0]] + s[1..];
    } else {
      front := "";
    }
  }

  lemma {:induction false} TrimEndSplits(s: string) returns (back: string)
    ensures Blank(back) && s == TrimEnd(s) + back
    ensures TrimEnd(s) != "" ==> !IsSpace(TrimEnd(s)[|TrimEnd(s)| - 1])
  {
    if s != [] && IsSpace(s[|s| - 1]) {
      var more := TrimEndSplits(s[..|s| - 1]);
      back := more + [s[|s| - 1]];
      assert s == s[..|s| - 1] + [s[|s| - 1]];
    } else {
      back := "";
    }
  }

  /** What trimming takes away is blanks. */
  lemma TrimSplits(s: string) returns (front: string, back: string)
    ensures Blank(front) && Blank(back) && s == front + Trim(s) + back && Solid(Trim(s))
  {
    front := TrimStartSplits(s);
    back := TrimEndSplits(TrimStart(s));
    assert s == front + (Trim(s) + back);
  }

  // ---------------------------------------------------------------- numbers

  lemma NumeralIff(s: string, n: nat)
    ensures ReadField(s) == Number(n) <==> Numeral(s, n)
  {
    var digits := if s != "" && s[0] == '+' then s[1..] else s;
    Decimal.ReadDigitsIff(digits, U64_MAX);
  }

  /** Reading both sides gives the request exactly when they spell it. */
  lemma SidesIff(a: string, b: string, ask: Ask)
    ensures AskedBy(ReadField(a), ReadField(b)) == Some(ask) <==> SidesSay(ask, a, b)
  {
    match ask
    case Last(n) => NumeralIff(b, n);
    case From(start) => NumeralIff(a, start);
    case Span(start, end) =>
      NumeralIff(a, start);
      NumeralIff(b, end);
  }

  predicate NumeralChar(c: char) { c == '+' || Decimal.IsDigit(c) }

  predicate Bare(s: string) { forall i :: 0 <= i < |s| ==> NumeralChar(s[i]) }

  lemma NumeralIsBare(s: string, n: nat)
    requires Numeral(s, n)
    ensures Bare(s) && s != ""
  {
    var digits := if s[0] == '+' then s[1..] else s;
    forall i | 0 <= i < |s| ensures NumeralChar(s[i]) {
      if s[i] != '+' {
        assert s[i] == digits[i - (|s| - |digits|)];
      }
    }
  }

  lemma SidesAreBare(ask: Ask, a: string, b: string)
    requires SidesSay(ask, a, b)
    ensures Bare(a) && Bare(b)
  {
    match ask
    case Last(n) => NumeralIsBare(b, n);
    case From(start) => NumeralIsBare(a, start);
    case Span(start, end) =>
      NumeralIsBare(a, start);
      NumeralIsBare(b, end);
  }

  lemma BareIsSolid(s: string)
    requires Bare(s)
    ensures Solid(s) && ',' !in s && '-' !in s
  {
    if s != "" {
      assert NumeralChar(s[0]) && NumeralChar(s[|s| - 1]);
    }
  }

  // ------------------------------------------------------------ reading back

  predicate Clear(s: string) { ',' !in s && '-' !in s }

  lemma BlankIsClear(s: string)
    requires Blank(s)
    ensures Clear(s)
  {
    assert ',' in s ==> IsSpace(',');
    assert '-' in s ==> IsSpace('-');
  }

  lemma ClearJoins(a: string, b: string)
    requires Clear(a) && Clear(b)
    ensures Clear(a + b)
  {
  }

  /** The core of a spec: from its first to its last character that is no blank. */
  function Core(g: Gaps, a: string, b: string): string {
    (if a == "" then "" else a + g.left) + "-" + (if b == "" then "" else g.right + b)
  }

  lemma CoreIsSolid(g: Gaps, a: string, b: string)
    requires Bare(a) && Bare(b)
    ensures Solid(Core(g, a, b)) && Core(g, a, b) != ""
  {
    BareIsSolid(a);
    BareIsSolid(b);
    var core := Core(g, a, b);
    assert core[0] == if a == "" then '-' else a[0];
    assert core[|core| - 1] == if b == "" then '-' else b[|b| - 1];
  }

  /** The fields of the core are the sides. */
  lemma CoreReads(g: Gaps, a: string, b: string)
    requires AllBlank(g) && Bare(a) && Bare(b)
    ensures var core := Core(g, a, b); var dash := IndexOf(core, '-');
      dash < |core| && Trim(core[..dash]) == a && Trim(core[dash + 1..]) == b
    ensures ',' !in Core(g, a, b)
  {
    LeftSide(a, g.left);
    RightSide(g.right, b);
    SplitsAtDash(if a == "" then "" else a + g.left, if b == "" then "" else g.right + b);
  }

  lemma LeftSide(a: string, blank: string)
    requires Bare(a) && Blank(blank)
    ensures var left := if a == "" then "" else a + blank; Clear(left) && Trim(left) == a
  {
    BareIsSolid(a);
    BlankIsClear(blank);
    ClearJoins(a, blank);
    if a == "" {
      TrimIs("", "", "", "");
    } else {
      assert a + blank == "" + a + blank;
      TrimIs(a + blank, "", a, blank);
    }
  }

  lemma RightSide(blank: string, b: string)
    requires Blank(blank) && Bare(b)
    ensures var right := if b == "" then "" else blank + b; Clear(right) && Trim(right) == b
  {
    BareIsSolid(b);
    BlankIsClear(blank);
    ClearJoins(blank, b);
    if b == "" {
      TrimIs("", "", "", "");
    } else {
      assert blank + b == blank + b + "";
      TrimIs(blank + b, blank, b, "");
    }
  }

  lemma SplitsAtDash(left: string, right: string)
    requires Clear(left) && Clear(right)
    ensures var core := left + "-" + right;
      IndexOf(core, '-') == |left| && core[..|left|] == left && core[|left| + 1..] == right && ',' !in core
  {
    var core := left + "-" + right;
    assert forall i :: 0 <= i < |left| ==> core[i] == left[i];
    IndexIs(core, '-', |left|);
  }

  /** The gaps a core leaves at its ends. */
  function Before(g: Gaps, a: string): string { if a == "" then g.unit + g.left else g.unit }

  function After(g: Gaps, b: string): string { if b == "" then g.right + g.back else g.back }

  lemma BlankJoins(a: string, b: string)
    requires Blank(a) && Blank(b)
    ensures Blank(a + b)
  {
  }

  lemma SpelledAround(g: Gaps, a: string, b: string)
    ensures Spelled(g, a, b) == g.front + (UNIT + (Before(g, a) + Core(g, a, b))) + After(g, b)
  {
    var left, right := g.unit + a + g.left, g.right + b + g.back;
    assert Spelled(g, a, b) == g.front + UNIT + left + "-" + right;
    assert left == Before(g, a) + if a == "" then "" else a + g.left;
    assert right == (if b == "" then "" else g.right + b) + After(g, b);
  }

  /** What is spelled is read: the fields are the sides. */
  lemma SpelledReads(g: Gaps, a: string, b: string)
    requires AllBlank(g) && Bare(a) && Bare(b)
    ensures Fields(Spelled(g, a, b)) == Some((a, b))
  {
    var core, before := Core(g, a, b), Before(g, a);
    SpelledAround(g, a, b);
    CoreIsSolid(g, a, b);
    CoreReads(g, a, b);
    BlankJoins(g.unit, g.left);
    BlankJoins(g.right, g.back);
    UnitReads(g.front, before, core, After(g, b), Spelled(g, a, b));
    FieldsAre(Spelled(g, a, b), before + core, core, IndexOf(core, '-'), a, b);
  }

  lemma UnitReads(front: string, before: string, core: string, after: string, value: string)
    requires Blank(front) && Blank(before) && Blank(after) && Solid(core) && core != "" && ',' !in core
    requires value == front + (UNIT + (before + core)) + after
    ensures Trim(value) == UNIT + (before + core) && Trim(before + core) == core && ',' !in before + core
  {
    var inside := UNIT + (before + core);
    assert inside[0] == 'b' && inside[|inside| - 1] == core[|core| - 1];
    TrimIs(value, front, inside, after);
    assert before + core == before + core + "";
    TrimIs(before + core, before, core, "");
    BlankIsClear(before);
  }

  lemma FieldsAre(value: string, spec: string, core: string, dash: nat, a: string, b: string)
    requires Trim(value) == UNIT + spec && ',' !in spec && Trim(spec) == core
    requires dash == IndexOf(core, '-') && dash < |core| && Trim(core[..dash]) == a && Trim(core[dash + 1..]) == b
    ensures Fields(value) == Some((a, b))
  {
    SpecBehindUnit(Trim(value), spec);
    OnePiece(spec);
  }

  lemma SpecBehindUnit(text: string, spec: string)
    requires text == UNIT + spec
    ensures UNIT <= text && text[|UNIT|..] == spec
  {
  }

  /** What is read was spelled so: every text with two fields is they, the unit, the dash
      and blanks. */
  lemma FieldsSpell(value: string) returns (g: Gaps)
    requires Fields(value).Some?
    ensures var (a, b) := Fields(value).value; AllBlank(g) && value == Spelled(g, a, b)
  {
    var spec := Trim(value)[|UNIT|..];
    SingleSplit(spec);
    var core := Trim(spec);
    var dash := IndexOf(core, '-');
    var front, back := TrimSplits(value);
    var before, after := TrimSplits(spec);
    var leftFront, leftBack := TrimSplits(core[..dash]);
    var rightFront, rightBack := TrimSplits(core[dash + 1..]);
    var a, b := Trim(core[..dash]), Trim(core[dash + 1..]);
    g := Gaps(front, before + leftFront, leftBack, rightFront, rightBack + after + back);
    CorePutTogether(core, dash, leftFront, a, leftBack, rightFront, b, rightBack);
    ValuePutTogether(value, spec, core, front, back, before, after);
    BlankJoins(before, leftFront);
    BlankJoins(rightBack, after);
    BlankJoins(rightBack + after, back);
    Regroup(g, front, before, leftFront, a, leftBack, rightFront, b, rightBack, after, back);
  }

  lemma SingleSplit(spec: string)
    requires |Split(spec, ',')| == 1
    ensures Split(spec, ',')[0] == spec
  {
  }

  lemma CorePutTogether(core: string, dash: nat, lf: string, a: string, lb: string, rf: string, b: string, rb: string)
    requires dash < |core| && core[dash] == '-' && core[..dash] == lf + a + lb && core[dash + 1..] == rf + b + rb
    ensures core == (lf + a + lb) + "-" + (rf + b + rb)
  {
    assert core == core[..dash] + "-" + core[dash + 1..];
  }

  lemma ValuePutTogether(value: string, spec: string, core: string, front: string, back: string, before: string, after: string)
    requires UNIT <= Trim(value) && spec == Trim(value)[|UNIT|..] && value == front + Trim(value) + back
    requires spec == before + core + after
    ensures value == front + (UNIT + (before + core + after)) + back
  {
    assert Trim(value) == UNIT + spec;
  }

  lemma Regroup(g: Gaps, front: string, before: string, lf: string, a: string, lb: string, rf: string, b: string, rb: string,
                after: string, back: string)
    requires g == Gaps(front, before + lf, lb, rf, rb + after + back)
    ensures Spelled(g, a, b) == front + (UNIT + (before + ((lf + a + lb) + "-" + (rf + b + rb)) + after)) + back
  {
  }

  /** For every header text: a request is understood exactly when the text is the unit, then
      its numbers around a dash, each with an optional plus, and blanks only around the whole,
      after the unit and around the dash. */
  lemma AskedIff(value: string, ask: Ask)
    ensures Asked(value) == Some(ask) <==> Asks(value, ask)
  {
    if Asked(value) == Some(ask) {
      var (a, b) := Fields(value).value;
      var g := FieldsSpell(value);
      SidesIff(a, b, ask);
      assert AllBlank(g) && SidesSay(ask, a, b) && value == Spelled(g, a, b);
    }
    if Asks(value, ask) {
      var g, a, b :| AllBlank(g) && SidesSay(ask, a, b) && value == Spelled(g, a, b);
      SidesAreBare(ask, a, b);
      SpelledReads(g, a, b);
      SidesIff(a, b, ask);
    }
  }
}
