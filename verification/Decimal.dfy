// std::to_string of a size, and strtol reading it back.

module Decimal {

  predicate IsDigit(c: char) { '0' <= c <= '9' }

  function DigitChar(n: nat): char
    requires n < 10
  {
    ('0' as int + n) as char
  }

  function ToString(n: nat): (s: string)
    ensures s != "" && forall i :: 0 <= i < |s| ==> IsDigit(s[i])
  {
    if n < 10 then [DigitChar(n)] else ToString(n / 10) + [DigitChar(n % 10)]
  }

  /// The leading digits of `s`, continuing from the number `acc` already read.
  function Digits(s: string, acc: nat): nat
    decreases |s|
  {
    if s == "" || !IsDigit(s[0]) then acc
    else Digits(s[1..], acc * 10 + (s[0] as int - '0' as int))
  }

  const LONG_MAX: int := 0x7fff_ffff_ffff_ffff

  predicate IsSpace(c: char) { c == ' ' || '\t' <= c <= '\r' }

  function Clamp(n: int): int {
    if n > LONG_MAX then LONG_MAX else if n < -LONG_MAX - 1 then -LONG_MAX - 1 else n
  }

  /// strtol(s, nullptr, 10).
  function StrToL(s: string): int {
    if s == "" then 0
    else if IsSpace(s[0]) then StrToL(s[1..])
    else if s[0] == '-' then Clamp(0 - Digits(s[1..], 0))
    else if s[0] == '+' then Clamp(Digits(s[1..], 0))
    else Clamp(Digits(s, 0))
  }

  function Pow10(n: nat): nat { if n == 0 then 1 else 10 * Pow10(n - 1) }

  lemma {:induction false} DigitsAppend(a: string, b: string, acc: nat)
    requires forall i :: 0 <= i < |a| ==> IsDigit(a[i])
    ensures Digits(a + b, acc) == Digits(b, Digits(a, acc))
  {
    if a == "" {
      assert a + b == b;
    } else {
      assert (a + b)[1..] == a[1..] + b;
      DigitsAppend(a[1..], b, acc * 10 + (a[0] as int - '0' as int));
    }
  }

  lemma {:induction false} DigitsOfNumber(n: nat, rest: string)
    requires rest == "" || !IsDigit(rest[0])
    ensures Digits(ToString(n) + rest, 0) == n
  {
    if n < 10 {
      assert (ToString(n) + rest)[1..] == rest;
    } else {
      DigitsOfNumber(n / 10, "");
      assert ToString(n / 10) + "" == ToString(n / 10);
      var last := [DigitChar(n % 10)];
      assert ToString(n) + rest == ToString(n / 10) + (last + rest);
      DigitsAppend(ToString(n / 10), last + rest, 0);
      assert (last + rest)[1..] == rest;
    }
  }

  /// A written size, after one space and before a non-digit, is read back.
  lemma NumberRoundTrip(n: nat, rest: string)
    requires n <= LONG_MAX && (rest == "" || !IsDigit(rest[0]))
    ensures StrToL(" " + ToString(n) + rest) == n
  {
    hide Digits, ToString;
    var digits := ToString(n) + rest;
    assert " " + ToString(n) + rest == " " + digits;
    assert (" " + digits)[1..] == digits;
    assert IsDigit(digits[0]);
    DigitsOfNumber(n, rest);
  }
}
