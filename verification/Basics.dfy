/** Values shared by every model: bytes, optional values and results. */
module Basics {

  newtype byte = x: int | 0 <= x < 0x100

  type Bytes = seq<byte>

  const U64_MAX: nat := 0xFFFF_FFFF_FFFF_FFFF

  const I64_MAX: nat := 0x7FFF_FFFF_FFFF_FFFF
  const I64_MIN: int := -0x8000_0000_0000_0000

  /** Nanoseconds in a second. */
  const NANOS: nat := 1_000_000_000

  /** 2^64 - 1, 2^63 - 1 and -2^63, in decimal. */
  lemma LimitsAre()
    ensures U64_MAX == 18_446_744_073_709_551_615 && I64_MAX == 9_223_372_036_854_775_807
    ensures I64_MIN == -9_223_372_036_854_775_808
  {
  }

  datatype Option<+T> = None | Some(value: T)

  datatype Result<+T, +E> = Ok(value: T) | Err(error: E)

  function Least(a: nat, b: nat): nat { if a < b then a else b }

  /** Joins chunks in order. */
  function Concat<T>(chunks: seq<seq<T>>): seq<T> {
    if chunks == [] then [] else chunks[0] + Concat(chunks[1..])
  }

  lemma {:induction false} ConcatAppend<T>(a: seq<seq<T>>, b: seq<seq<T>>)
    ensures Concat(a + b) == Concat(a) + Concat(b)
  {
    if a == [] {
      assert a + b == b;
    } else {
      assert (a + b)[1..] == a[1..] + b;
      ConcatAppend(a[1..], b);
    }
  }

  lemma ConcatSnoc<T>(a: seq<seq<T>>, last: seq<T>)
    ensures Concat(a + [last]) == Concat(a) + last
  {
    ConcatAppend(a, [last]);
    assert Concat([last]) == last + Concat([last][1..]);
  }
}
