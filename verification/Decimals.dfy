/** Numbers as decimal text: what an output stream prints and what strtoul reads. */
module Decimals {

  function Digit(d: nat): char
    requires d < 10
  {
    '0' + d as char
  }

  /** The decimal text of `n`, as an output stream prints it. */
  function Decimal(n: nat): (s: string)
    ensures |s| >= 1
  {
    if n < 10 then [Digit(n)] else Decimal(n / 10) + [Digit(n % 10)]
  }

  predicate IsDigit(c: char) {
    '0' <= c <= '9'
  }

  lemma {:induction false} DecimalFirst(n: nat)
    requires n > 0
    ensures Decimal(n)[0] > '0'
  {
    if n >= 10 {
      DecimalFirst(n / 10);
    }
  }

  /** The value of the leading digits of `s`, continuing from `acc`. */
  function LeadingNumber(s: string, acc: nat): nat {
    if s == [] || !IsDigit(s[0]) then acc
    else LeadingNumber(s[1..], acc * 10 + (s[0] - '0') as int)
  }

  lemma {:induction false} NumberReadsBack(n: nat, rest: string)
    ensures LeadingNumber(Decimal(n) + rest, 0) == LeadingNumber(rest, n)
  {
    if n < 10 {
      assert (Decimal(n) + rest)[1..] == rest;
    } else {
      var d := [Digit(n % 10)];
      assert Decimal(n) + rest == Decimal(n / 10) + (d + rest);
      NumberReadsBack(n / 10, d + rest);
      assert (d + rest)[1..] == rest;
    }
  }

  lemma {:induction false} DecimalDigits(n: nat)
    ensures forall c :: c in Decimal(n) ==> IsDigit(c)
  {
    if n >= 10 {
      DecimalDigits(n / 10);
    }
  }

  /** The largest unsigned long of a 64-bit system. */
  const ULONG_MAX := 0xFFFF_FFFF_FFFF_FFFF

  predicate IsSpace(c: char) {
    c == ' ' || 9 <= c as int <= 13
  }

  function SkipSpace(s: string): string {
    if s != [] && IsSpace(s[0]) then SkipSpace(s[1..]) else s
  }

  /**
   The number at the front of `s` as strtoul reads it in base ten: after white
   space and a sign, clamped to the largest value; a minus sign negates modulo
   2^64.
   */
  function ParseUnsignedLong(s: string): nat {
    var t := SkipSpace(s);
    var signed := t != [] && (t[0] == '-' || t[0] == '+');
    var n := LeadingNumber(if signed then t[1..] else t, 0);
    if n > ULONG_MAX then ULONG_MAX
    else if signed && t[0] == '-' && n > 0 then ULONG_MAX + 1 - n
    else n
  }

  /** A number printed in front of a text that does not begin with a digit reads back, up to the clamping. */
  lemma PrintedNumber(n: nat, rest: string)
    requires rest == [] || !IsDigit(rest[0])
    ensures ParseUnsignedLong(Decimal(n) + rest) == if n <= ULONG_MAX then n else ULONG_MAX
  {
    hide Decimal;
    var s := Decimal(n) + rest;
    DecimalDigits(n);
    assert IsDigit(Decimal(n)[0]);
    assert SkipSpace(s) == s && s[0] == Decimal(n)[0];
    NumberReadsBack(n, rest);
  }

  /** White space in front is skipped: blanks, and the characters from tab to carriage return. */
  lemma SpaceSkipped(c: char, s: string)
    requires c as int in {9, 10, 11, 12, 13, 32}
    ensures ParseUnsignedLong([c] + s) == ParseUnsignedLong(s)
  {
    hide LeadingNumber;
    assert ([c] + s)[1..] == s;
  }

  /** A plus sign changes nothing, a minus sign negates modulo 2^64. */
  lemma SignedNumber(n: nat, rest: string)
    requires n <= ULONG_MAX && (rest == [] || !IsDigit(rest[0]))
    ensures ParseUnsignedLong(['+'] + (Decimal(n) + rest)) == n
    ensures ParseUnsignedLong(['-'] + (Decimal(n) + rest)) == if n == 0 then 0 else 0x1_0000_0000_0000_0000 - n
  {
    hide Decimal;
    var s := Decimal(n) + rest;
    NumberReadsBack(n, rest);
    assert (['+'] + s)[1..] == s && (['-'] + s)[1..] == s;
  }
}
