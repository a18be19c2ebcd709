/** Sorting by a total order, and lexicographic orders. */
module Sorting {
  import opened Basics

  ghost predicate TotalOrder<T(!new)>(leq: (T, T) -> bool) {
    && (forall a, b :: leq(a, b) || leq(b, a))
    && (forall a, b :: leq(a, b) && leq(b, a) ==> a == b)
    && (forall a, b, c :: leq(a, b) && leq(b, c) ==> leq(a, c))
  }

  ghost predicate SortedBy<T>(s: seq<T>, leq: (T, T) -> bool) {
    forall i, j :: 0 <= i < j < |s| ==> leq(s[i], s[j])
  }

  ghost predicate NoRepeats<T>(s: seq<T>) {
    forall i, j :: 0 <= i < j < |s| ==> s[i] != s[j]
  }

  lemma AppendNoRepeats<T>(a: seq<T>, b: seq<T>)
    requires NoRepeats(a) && NoRepeats(b) && forall x :: x in a ==> x !in b
    ensures NoRepeats(a + b)
  {
    forall i, j | 0 <= i < j < |a + b| ensures (a + b)[i] != (a + b)[j] {
      if i < |a| && j >= |a| {
        assert a[i] in a && b[j - |a|] in b;
      }
    }
  }

  function Insert<T>(x: T, s: seq<T>, leq: (T, T) -> bool): seq<T> {
    if s == [] || leq(x, s[0]) then [x] + s else [s[0]] + Insert(x, s[1..], leq)
  }

  function Sort<T>(s: seq<T>, leq: (T, T) -> bool): seq<T> {
    if s == [] then [] else Insert(s[0], Sort(s[1..], leq), leq)
  }

  lemma {:induction false} InsertKeeps<T>(x: T, s: seq<T>, leq: (T, T) -> bool)
    ensures multiset(Insert(x, s, leq)) == multiset(s) + multiset{x}
  {
    if s != [] && !leq(x, s[0]) {
      InsertKeeps(x, s[1..], leq);
      assert s == [s[0]] + s[1..];
    }
  }

  lemma {:induction false} InsertSorted<T(!new)>(x: T, s: seq<T>, leq: (T, T) -> bool)
    requires TotalOrder(leq) && SortedBy(s, leq)
    ensures SortedBy(Insert(x, s, leq), leq)
  {
    if s != [] && !leq(x, s[0]) {
      InsertSorted(x, s[1..], leq);
      InsertKeeps(x, s[1..], leq);
      assert s == [s[0]] + s[1..];
      LeastFirst(s[0], s[1..], x, Insert(x, s[1..], leq), leq);
    }
  }

  /** What is below `x` and below all of `s` is below all of both together. */
  lemma LeastFirst<T>(least: T, s: seq<T>, x: T, both: seq<T>, leq: (T, T) -> bool)
    requires multiset(both) == multiset(s) + multiset{x} && leq(least, x)
    requires SortedBy([least] + s, leq) && SortedBy(both, leq)
    ensures SortedBy([least] + both, leq)
  {
    forall j | 0 <= j < |both| ensures leq(least, both[j]) {
      assert both[j] in multiset(both);
      if both[j] != x {
        var i :| 0 <= i < |s| && s[i] == both[j];
        assert ([least] + s)[0] == least && ([least] + s)[i + 1] == s[i];
      }
    }
  }

  lemma {:induction false} SortSorts<T(!new)>(s: seq<T>, leq: (T, T) -> bool)
    requires TotalOrder(leq)
    ensures SortedBy(Sort(s, leq), leq) && multiset(Sort(s, leq)) == multiset(s)
  {
    if s != [] {
      SortSorts(s[1..], leq);
      InsertSorted(s[0], Sort(s[1..], leq), leq);
      InsertKeeps(s[0], Sort(s[1..], leq), leq);
      assert s == [s[0]] + s[1..];
    }
  }

  lemma SameElements<T>(a: seq<T>, b: seq<T>)
    requires multiset(a) == multiset(b)
    ensures |a| == |b| && forall x :: x in a <==> x in b
  {
    assert |multiset(a)| == |a| && |multiset(b)| == |b|;
    forall x ensures x in a <==> x in b {
      assert x in a <==> x in multiset(a);
      assert x in b <==> x in multiset(b);
    }
  }

  lemma {:induction false} CountOne<T>(s: seq<T>)
    ensures NoRepeats(s) <==> forall x :: multiset(s)[x] <= 1
  {
    if s != [] {
      var init, last := s[..|s| - 1], s[|s| - 1];
      CountOne(init);
      assert s == init + [last];
      assert multiset(s) == multiset(init) + multiset{last};
      if NoRepeats(s) {
        assert NoRepeats(init);
        assert last !in init;
      } else if NoRepeats(init) {
        var i :| 0 <= i < |s| - 1 && s[i] == last;
        assert init[i] == last;
        assert last in multiset(init);
        assert multiset(s)[last] >= 2;
      } else {
        var x :| multiset(init)[x] > 1;
        assert multiset(s)[x] > 1;
      }
    }
  }

  lemma SortKeepsNoRepeats<T(!new)>(s: seq<T>, leq: (T, T) -> bool)
    requires TotalOrder(leq) && NoRepeats(s)
    ensures NoRepeats(Sort(s, leq))
  {
    SortSorts(s, leq);
    CountOne(s);
    CountOne(Sort(s, leq));
  }

  /** A sorted sequence without repeats is determined by its elements. */
  lemma {:induction false} SortedUnique<T(!new)>(a: seq<T>, b: seq<T>, leq: (T, T) -> bool)
    requires TotalOrder(leq) && SortedBy(a, leq) && SortedBy(b, leq) && NoRepeats(a) && NoRepeats(b)
    requires forall x :: x in a <==> x in b
    ensures a == b
    decreases |a|
  {
    assert a != [] ==> a[0] in b;
    assert b != [] ==> b[0] in a;
    if a != [] {
      FirstIsLeast(a, b, leq);
      forall x ensures x in a[1..] <==> x in b[1..] {
        InTail(a, x);
        InTail(b, x);
      }
      SortedUnique(a[1..], b[1..], leq);
      assert a == [a[0]] + a[1..] && b == [b[0]] + b[1..];
    }
  }

  lemma FirstIsLeast<T(!new)>(a: seq<T>, b: seq<T>, leq: (T, T) -> bool)
    requires TotalOrder(leq) && SortedBy(a, leq) && SortedBy(b, leq) && a != [] && b != []
    requires forall x :: x in a <==> x in b
    ensures a[0] == b[0]
  {
    assert a[0] in b && b[0] in a;
    assert leq(a[0], b[0]) && leq(b[0], a[0]);
  }

  lemma InTail<T>(s: seq<T>, x: T)
    requires s != [] && NoRepeats(s)
    ensures x in s[1..] <==> x in s && x != s[0]
  {
    if x in s && x != s[0] {
      var i :| 0 <= i < |s| && s[i] == x;
      assert s[1..][i - 1] == x;
    }
    if x in s[1..] {
      var i :| 0 <= i < |s| - 1 && s[1..][i] == x;
      assert s[i + 1] == x;
    }
  }

  // ------------------------------------------------------ lexicographic order

  predicate LexLeq<T(==)>(a: seq<T>, b: seq<T>, leq: (T, T) -> bool) {
    if a == [] then true
    else if b == [] then false
    else if a[0] == b[0] then LexLeq(a[1..], b[1..], leq)
    else leq(a[0], b[0])
  }

  lemma {:induction false} LexTotal<T(!new)>(a: seq<T>, b: seq<T>, leq: (T, T) -> bool)
    requires TotalOrder(leq)
    ensures LexLeq(a, b, leq) || LexLeq(b, a, leq)
    ensures LexLeq(a, b, leq) && LexLeq(b, a, leq) ==> a == b
  {
    if a != [] && b != [] && a[0] == b[0] {
      LexTotal(a[1..], b[1..], leq);
      assert a == [a[0]] + a[1..] && b == [b[0]] + b[1..];
    }
  }

  lemma {:induction false} LexTransitive<T(!new)>(a: seq<T>, b: seq<T>, c: seq<T>, leq: (T, T) -> bool)
    requires TotalOrder(leq) && LexLeq(a, b, leq) && LexLeq(b, c, leq)
    ensures LexLeq(a, c, leq)
  {
    if a != [] && b != [] && c != [] && a[0] == b[0] && b[0] == c[0] {
      LexTransitive(a[1..], b[1..], c[1..], leq);
    }
  }

  lemma LexIsTotalOrder<T(!new)>(leq: (T, T) -> bool, lex: (seq<T>, seq<T>) -> bool)
    requires TotalOrder(leq) && forall a, b :: lex(a, b) == LexLeq(a, b, leq)
    ensures TotalOrder(lex)
  {
    forall a, b
      ensures lex(a, b) || lex(b, a)
      ensures lex(a, b) && lex(b, a) ==> a == b
    {
      LexTotal(a, b, leq);
    }
    forall a, b, c | lex(a, b) && lex(b, c) ensures lex(a, c) {
      LexTransitive(a, b, c, leq);
    }
  }

  const ByteLeq: (byte, byte) -> bool := (a: byte, b: byte) => a <= b

  /** Byte strings compare byte by byte. */
  const BytesLeq: (Bytes, Bytes) -> bool := (a: Bytes, b: Bytes) => LexLeq(a, b, ByteLeq)

  /** Lists of byte strings compare string by string. */
  const ListsLeq: (seq<Bytes>, seq<Bytes>) -> bool := (a: seq<Bytes>, b: seq<Bytes>) => LexLeq(a, b, BytesLeq)

  lemma SameStart<T>(a: seq<T>, b: seq<T>)
    ensures forall at :: 0 < at <= |a| && at <= |b| && a[..at] == b[..at] ==> a[0] == b[0]
  {
    forall at | 0 < at <= |a| && at <= |b| && a[..at] == b[..at] ensures a[0] == b[0] {
      assert a[..at][0] == b[..at][0];
    }
  }

  /** The first place where two byte strings part, and the shorter or smaller one. */
  ghost predicate ComesBefore(a: Bytes, b: Bytes, at: int) {
    0 <= at <= |a| && at < |b| && a[..at] == b[..at] && (at == |a| || a[at] < b[at])
  }

  /** One byte string is at or before another exactly when they are equal, or it is
      a prefix, or it has the smaller byte where they first differ. */
  lemma {:induction false} BytesLeqIff(a: Bytes, b: Bytes)
    ensures BytesLeq(a, b) <==> a == b || exists at :: ComesBefore(a, b, at)
    decreases |a|
  {
    if a == [] {
      assert b != [] ==> ComesBefore(a, b, 0);
    } else if b != [] && a[0] == b[0] {
      BytesLeqIff(a[1..], b[1..]);
      assert a == [a[0]] + a[1..] && b == [b[0]] + b[1..];
      if BytesLeq(a[1..], b[1..]) && a != b {
        var at :| ComesBefore(a[1..], b[1..], at);
        assert a[..at + 1] == [a[0]] + a[1..][..at] && b[..at + 1] == [b[0]] + b[1..][..at];
        assert ComesBefore(a, b, at + 1);
      }
      if exists at :: ComesBefore(a, b, at) {
        var at :| ComesBefore(a, b, at);
        assert at > 0;
        assert a[1..][..at - 1] == a[..at][1..] && b[1..][..at - 1] == b[..at][1..];
        assert ComesBefore(a[1..], b[1..], at - 1);
      }
    } else if b != [] {
      assert a[0] < b[0] ==> ComesBefore(a, b, 0);
      SameStart(a, b);
    }
  }

  /** The same of lists, whose first different strings decide. */
  ghost predicate ListComesBefore(a: seq<Bytes>, b: seq<Bytes>, at: int) {
    0 <= at <= |a| && at < |b| && a[..at] == b[..at] && (at == |a| || (a[at] != b[at] && BytesLeq(a[at], b[at])))
  }

  lemma {:induction false} ListsLeqIff(a: seq<Bytes>, b: seq<Bytes>)
    ensures ListsLeq(a, b) <==> a == b || exists at :: ListComesBefore(a, b, at)
    decreases |a|
  {
    if a == [] {
      assert b != [] ==> ListComesBefore(a, b, 0);
    } else if b != [] && a[0] == b[0] {
      ListsLeqIff(a[1..], b[1..]);
      assert a == [a[0]] + a[1..] && b == [b[0]] + b[1..];
      if ListsLeq(a[1..], b[1..]) && a != b {
        var at :| ListComesBefore(a[1..], b[1..], at);
        assert a[..at + 1] == [a[0]] + a[1..][..at] && b[..at + 1] == [b[0]] + b[1..][..at];
        assert ListComesBefore(a, b, at + 1);
      }
      if exists at :: ListComesBefore(a, b, at) {
        var at :| ListComesBefore(a, b, at);
        assert at > 0;
        assert a[1..][..at - 1] == a[..at][1..] && b[1..][..at - 1] == b[..at][1..];
        assert ListComesBefore(a[1..], b[1..], at - 1);
      }
    } else if b != [] {
      assert BytesLeq(a[0], b[0]) ==> ListComesBefore(a, b, 0);
      SameStart(a, b);
    }
  }

  lemma OrdersAreTotal()
    ensures TotalOrder(BytesLeq) && TotalOrder(ListsLeq)
  {
    LexIsTotalOrder(ByteLeq, BytesLeq);
    LexIsTotalOrder(BytesLeq, ListsLeq);
  }
}
