/** Decimal text of integers, as Rust's `{}` prints it and `parse::<i64>` reads it. */
module Decimal {
  import opened Wrappers

  const I64_MIN: int := -0x8000_0000_0000_0000
  const I64_MAX: int := 0x7fff_ffff_ffff_ffff

  predicate IsDigit(c: char) { '0' <= c <= '9' }

  ghost predicate AllDigits(s: string) { forall i :: 0 <= i < |s| ==> IsDigit(s[i]) }

  function Digit(d: nat): char
    requires d < 10
  {
    (d + '0' as int) as char
  }

  function NatText(n: nat): string
  {
    if n < 10 then [Digit(n)] else NatText(n / 10) + [Digit(n % 10)]
  }

  function IntText(i: int): string
  {
    if i < 0 then "-" + NatText(-i) else NatText(i)
  }

  /** The value of a digit string, `None` on any other character. */
  function DigitsValue(s: string): Option<nat>
  {
    if s == "" then Some(0)
    else
      var front := DigitsValue(s[..|s| - 1]);
      var last := s[|s| - 1];
      if front.Some? && IsDigit(last) then Some(10 * front.value + (last as int - '0' as int)) else None
  }

  /** Rust's `str::parse::<i64>`: an optional sign, at least one digit, and the 64-bit range. */
  function ParseI64(s: string): Option<int>
  {
    if s == "" then None
    else
      var digits := if s[0] == '-' || s[0] == '+' then s[1..] else s;
      var magnitude := DigitsValue(digits);
      if digits == "" || magnitude.None? then None
      else
        var n: int := magnitude.value;
        var value := if s[0] == '-' then -n else n;
        if I64_MIN <= value <= I64_MAX then Some(value) else None
  }

  lemma {:induction false} NatTextReads(n: nat)
    ensures |NatText(n)| > 0 && AllDigits(NatText(n))
    ensures DigitsValue(NatText(n)) == Some(n)
  {
    if n < 10 {
      assert NatText(n)[..0] == "";
    } else {
      NatTextReads(n / 10);
      var t := NatText(n);
      assert t[..|t| - 1] == NatText(n / 10);
    }
  }

  /** Printing then parsing gives the integer back exactly when it fits 64 bits. */
  lemma ParseI64RoundTrip(i: int)
    ensures ParseI64(IntText(i)) == if I64_MIN <= i <= I64_MAX then Some(i) else None
  {
    var n: nat := if i < 0 then -i else i;
    NatTextReads(n);
    var s := IntText(i);
    var digits := if s[0] == '-' || s[0] == '+' then s[1..] else s;
    assert digits == NatText(n) by { assert IsDigit(NatText(n)[0]); }
    assert DigitsValue(digits) == Some(n);
  }

  /** No sign or digit is a colon, so integer text never contains the cursor separator. */
  lemma IntTextHasNo(i: int, c: char)
    requires !IsDigit(c) && c != '-'
    ensures c !in IntText(i)
  {
    NatTextReads(if i < 0 then -i else i);
    var digits := NatText(if i < 0 then -i else i);
    forall k | 0 <= k < |IntText(i)| ensures IntText(i)[k] != c {
      if i < 0 && k > 0 { assert IntText(i)[k] == digits[k - 1]; }
    }
  }

  lemma SignOf(i: int)
    ensures IntText(i) != ""
    ensures i < 0 ==> IntText(i)[0] == '-' && IntText(i)[1..] == NatText(-i)
    ensures i >= 0 ==> IsDigit(IntText(i)[0]) && IntText(i) == NatText(i)
  {
    NatTextReads(if i < 0 then -i else i);
  }
}
