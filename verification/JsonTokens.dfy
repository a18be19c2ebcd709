/** The tokens a JSON serializer writes, and the three things the bounds measure. */
module JsonTokens {
  import opened Basics
  import opened LuaHeap

  /** `Atom` is a value without children, `Octets` a string that is not UTF-8,
      written as an array of numbers; `Name` is a member's name. */
  datatype Token = Atom(v: Value) | Octets(s: Bytes) | Name(key: Value) | OpenSeq | CloseSeq | OpenMap | CloseMap

  function Weight(t: Token): nat { if t.CloseSeq? || t.CloseMap? then 0 else 1 }

  function Rise(t: Token): int {
    match t
    case OpenSeq | OpenMap => 1
    case CloseSeq | CloseMap => -1
    case _ => 0
  }

  /** How many values were visited, names included. */
  function Visits(ts: seq<Token>): nat {
    if ts == [] then 0 else Weight(ts[0]) + Visits(ts[1..])
  }

  /** Containers opened and not closed. */
  function Net(ts: seq<Token>): int {
    if ts == [] then 0 else Rise(ts[0]) + Net(ts[1..])
  }

  /** The deepest nesting reached. */
  function Peak(ts: seq<Token>): nat {
    if ts == [] then 0
    else
      var after := Rise(ts[0]) + Peak(ts[1..]);
      if after < 0 then 0 else after
  }

  predicate HasOctets(ts: seq<Token>) {
    exists i :: 0 <= i < |ts| && ts[i].Octets?
  }

  lemma {:induction false} MeasuresAppend(a: seq<Token>, b: seq<Token>)
    ensures Visits(a + b) == Visits(a) + Visits(b)
    ensures Net(a + b) == Net(a) + Net(b)
    ensures Peak(a + b) == if Peak(a) > Net(a) + Peak(b) then Peak(a) else Net(a) + Peak(b)
    ensures HasOctets(a + b) <==> HasOctets(a) || HasOctets(b)
  {
    OctetsAppend(a, b);
    if a == [] {
      assert a + b == b;
    } else {
      assert (a + b)[1..] == a[1..] + b;
      MeasuresAppend(a[1..], b);
    }
  }

  /** Containers opened less containers closed. */
  ghost function Opened(ts: seq<Token>): int {
    var count := multiset(ts);
    var ups: int, downs: int := count[OpenSeq] + count[OpenMap], count[CloseSeq] + count[CloseMap];
    ups - downs
  }

  /** Every token is a visit but the ends of containers, and the nesting left open is
      what was opened and not closed, of lists and of maps alike. */
  lemma {:induction false} VisitsMean(ts: seq<Token>)
    ensures Visits(ts) == |ts| - multiset(ts)[CloseSeq] - multiset(ts)[CloseMap]
    ensures Net(ts) == Opened(ts)
  {
    if ts != [] {
      VisitsMean(ts[1..]);
      FirstCounts(ts);
    }
  }

  lemma FirstCounts(ts: seq<Token>)
    requires ts != []
    ensures multiset(ts) == multiset{ts[0]} + multiset(ts[1..])
    ensures Opened(ts) == Rise(ts[0]) + Opened(ts[1..])
  {
    assert ts == [ts[0]] + ts[1..];
  }

  /** The peak is the most that is open at any point of the text. */
  lemma {:induction false} PeakMeans(ts: seq<Token>)
    ensures forall n :: 0 <= n <= |ts| ==> Opened(ts[..n]) <= Peak(ts)
    ensures exists n :: 0 <= n <= |ts| && Opened(ts[..n]) == Peak(ts)
    decreases |ts|
  {
    assert Opened(ts[..0]) == 0;
    if ts != [] {
      PeakMeans(ts[1..]);
      forall n | 0 < n <= |ts| ensures Opened(ts[..n]) == Rise(ts[0]) + Opened(ts[1..][..n - 1]) {
        FirstCounts(ts[..n]);
        assert ts[..n][1..] == ts[1..][..n - 1];
      }
      var m :| 0 <= m <= |ts| - 1 && Opened(ts[1..][..m]) == Peak(ts[1..]);
      assert Opened(ts[..m + 1]) == Rise(ts[0]) + Opened(ts[1..][..m + 1 - 1]);
    }
  }

  lemma OneToken(t: Token)
    requires t.Atom? || t.Name? || t.Octets?
    ensures Visits([t]) == 1 && Net([t]) == 0 && Peak([t]) == 0 && (HasOctets([t]) <==> t.Octets?)
  {
    assert [t][1..] == [];
    assert [t][0] == t;
  }

  lemma OctetsAppend(a: seq<Token>, b: seq<Token>)
    ensures HasOctets(a + b) <==> HasOctets(a) || HasOctets(b)
  {
    if HasOctets(a) {
      var i :| 0 <= i < |a| && a[i].Octets?;
      assert (a + b)[i].Octets?;
    }
    if HasOctets(b) {
      var i :| 0 <= i < |b| && b[i].Octets?;
      assert (a + b)[|a| + i].Octets?;
    }
  }

  /** What is left of the bounds at some point of a pass. */
  datatype Room = Room(depth: nat, maxDepth: nat, budget: nat, strict: bool)

  /** Whether writing `ts` from there stays inside the bounds. */
  predicate Fits(ts: seq<Token>, room: Room) {
    && room.depth + Peak(ts) <= room.maxDepth
    && Visits(ts) <= room.budget
    && (room.strict ==> !HasOctets(ts))
  }

  function Spend(room: Room, ts: seq<Token>): Room
    requires Visits(ts) <= room.budget
  {
    room.(budget := room.budget - Visits(ts))
  }

  lemma FitsAppend(a: seq<Token>, b: seq<Token>, room: Room)
    requires Net(a) == 0
    ensures Fits(a + b, room) <==> Fits(a, room) && Fits(b, Spend(room, a))
  {
    MeasuresAppend(a, b);
  }

  function Enclosed(open: Token, body: seq<Token>, close: Token): seq<Token> {
    [open] + body + [close]
  }

  lemma EnclosedMeasures(open: Token, body: seq<Token>, close: Token)
    requires Rise(open) == 1 && Rise(close) == -1 && Net(body) == 0
    ensures var ts := Enclosed(open, body, close);
      && Visits(ts) == 1 + Visits(body)
      && Net(ts) == 0
      && Peak(ts) == 1 + Peak(body)
      && (HasOctets(ts) <==> HasOctets(body))
  {
    MeasuresAppend([open] + body, [close]);
    MeasuresAppend([open], body);
    assert Net([open]) == 1 && Peak([open]) == 1 && Visits([open]) == 1;
    assert Net([close]) == -1 && Peak([close]) == 0 && Visits([close]) == 0;
    assert !HasOctets([open]) && !HasOctets([close]);
  }

  lemma EnclosedFits(open: Token, body: seq<Token>, close: Token, room: Room)
    requires Rise(open) == 1 && Rise(close) == -1 && Net(body) == 0
    ensures Fits(Enclosed(open, body, close), room) <==>
      && room.budget >= 1 && room.depth + 1 <= room.maxDepth
      && Fits(body, room.(depth := room.depth + 1, budget := room.budget - 1))
  {
    EnclosedMeasures(open, body, close);
  }
}
