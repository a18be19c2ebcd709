/** Unsigned decimal numbers as text, read with an overflow check at every digit. */
module Decimal {
  import opened Basics

  predicate IsDigit(c: char) { '0' <= c <= '9' }

  function DigitOf(c: char): nat
    requires IsDigit(c)
  {
    c as int - '0' as int
  }

  function CharOf(d: nat): (c: char)
    requires d < 10
    ensures IsDigit(c) && DigitOf(c) == d
  {
    ('0' as int + d) as char
  }

  predicate AllDigits(s: string) {
    forall i :: 0 <= i < |s| ==> IsDigit(s[i])
  }

  /** The number a digit string spells, however large. */
  function Value(s: string): nat
    requires AllDigits(s)
  {
    if s == [] then 0 else 10 * Value(s[..|s| - 1]) + DigitOf(s[|s| - 1])
  }

  /** Digit by digit, giving up as soon as the number passes `max`. */
  function ReadDigits(s: string, max: nat): Option<nat> {
    if s == [] then Some(0)
    else
      match ReadDigits(s[..|s| - 1], max)
      case None => None
      case Some(acc) =>
        var last := s[|s| - 1];
        if !IsDigit(last) || 10 * acc + DigitOf(last) > max then None
        else Some(10 * acc + DigitOf(last))
  }

  /** The standard library's `parse` for an unsigned type: a leading `+` is allowed,
      and at least one digit is needed. */
  function Parse(s: string, max: nat): Option<nat> {
    var digits := if s != [] && s[0] == '+' then s[1..] else s;
    if digits == [] then None else ReadDigits(digits, max)
  }

  /** Without leading zeros. */
  function Print(n: nat): string {
    if n < 10 then [CharOf(n)] else Print(n / 10) + [CharOf(n % 10)]
  }

  /** Giving up early is giving up rightly: the check passes exactly when the whole
      number fits. */
  lemma {:induction false} ReadDigitsIff(s: string, max: nat)
    ensures ReadDigits(s, max) ==
      if AllDigits(s) && Value(s) <= max then Some(Value(s)) else None
  {
    if s != [] {
      var init := s[..|s| - 1];
      ReadDigitsIff(init, max);
      if AllDigits(init) && IsDigit(s[|s| - 1]) {
        assert AllDigits(s);
      } else if AllDigits(s) {
        assert AllDigits(init);
      }
    }
  }

  lemma {:induction false} PrintValue(n: nat)
    ensures AllDigits(Print(n)) && Print(n) != [] && Value(Print(n)) == n
    ensures Print(n)[0] == '0' ==> n == 0
  {
    if n < 10 {
      assert Print(n)[..0] == [];
    } else {
      PrintValue(n / 10);
      assert Print(n)[..|Print(n)| - 1] == Print(n / 10);
    }
  }

  /** Printing then parsing gives the number back, unless it does not fit. */
  lemma ParsePrint(n: nat, max: nat)
    ensures Parse(Print(n), max) == if n <= max then Some(n) else None
  {
    PrintValue(n);
    assert IsDigit(Print(n)[0]);
    ReadDigitsIff(Print(n), max);
  }
}
