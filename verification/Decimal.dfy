/** Decimal text: std::to_string, and std::stoll with the leniency it has. */
module Decimal {
  import opened Bytes

  const ZERO: byte := '0' as int
  const MINUS: byte := '-' as int
  const PLUS: byte := '+' as int

  predicate IsDigit(c: byte) {
    '0' as int <= c <= '9' as int
  }

  /** isspace in the "C" locale. */
  predicate IsSpace(c: byte) {
    c == ' ' as int || 9 <= c <= 13
  }

  predicate AllDigits(s: bytes) {
    forall i :: 0 <= i < |s| ==> IsDigit(s[i])
  }

  // ----- std::to_string -----

  function Digits(n: nat): (s: bytes)
    ensures |s| > 0 && AllDigits(s)
  {
    if n < 10 then [48 + n] else Digits(n / 10) + [48 + n % 10]
  }

  function ToString(n: int): (s: bytes)
    ensures |s| > 0 && (s[0] == MINUS || IsDigit(s[0]))
  {
    if n < 0 then [MINUS] + Digits(-n) else Digits(n)
  }

  // ----- std::stoll(s), base 10 -----

  /** The length of the longest prefix made of digits. */
  function DigitRun(s: bytes): (n: nat)
    ensures n <= |s|
  {
    if |s| > 0 && IsDigit(s[0]) then 1 + DigitRun(s[1..]) else 0
  }

  function DigitsValue(s: bytes): int {
    if |s| == 0 then 0 else DigitsValue(s[..|s| - 1]) * 10 + (s[|s| - 1] as int - 48)
  }

  /** None stands for the invalid_argument and out_of_range exceptions. */
  function Stoll(s: bytes): Option<int64> {
    if |s| > 0 && IsSpace(s[0]) then Stoll(s[1..])
    else if |s| > 0 && s[0] == MINUS then Convert(s[1..], -1)
    else if |s| > 0 && s[0] == PLUS then Convert(s[1..], 1)
    else Convert(s, 1)
  }

  function Convert(s: bytes, sign: int): Option<int64> {
    var n := DigitRun(s);
    var value := sign * DigitsValue(s[..n]);
    if n > 0 && INT64_MIN <= value <= INT64_MAX then Some(value) else None
  }

  // ----- What stoll accepts -----

  /** Spaces, then a sign or none, then digits, and then nothing that starts with a digit. */
  predicate IsReading(spaces: bytes, sign: bytes, digits: bytes, rest: bytes) {
    && (forall i :: 0 <= i < |spaces| ==> IsSpace(spaces[i]))
    && (sign == [] || sign == Text("+") || sign == Text("-"))
    && |digits| > 0 && AllDigits(digits)
    && (|rest| > 0 ==> !IsDigit(rest[0]))
  }

  /** The number read off the digits, or the out_of_range exception. */
  function Read(sign: bytes, digits: bytes): Option<int64> {
    var value := if sign == Text("-") then -DigitsValue(digits) else DigitsValue(digits);
    if INT64_MIN <= value <= INT64_MAX then Some(value) else None
  }

  /** stoll skips spaces in front, takes a sign, takes any zeros, and ignores what follows the digits. */
  lemma {:induction false} StollReads(spaces: bytes, sign: bytes, digits: bytes, rest: bytes)
    requires IsReading(spaces, sign, digits, rest)
    ensures Stoll(spaces + sign + digits + rest) == Read(sign, digits)
    decreases |spaces|
  {
    if |spaces| > 0 {
      StollReads(spaces[1..], sign, digits, rest);
      hide Read, AllDigits;
      SkipsSpace(spaces[0], spaces[1..] + sign + digits + rest);
      assert spaces + sign + digits + rest == [spaces[0]] + (spaces[1..] + sign + digits + rest);
    } else {
      SignThenDigits(sign, digits, rest);
      assert spaces + sign + digits + rest == sign + (digits + rest);
    }
  }

  lemma SkipsSpace(space: byte, s: bytes)
    requires IsSpace(space)
    ensures Stoll([space] + s) == Stoll(s)
  {
    assert ([space] + s)[1..] == s;
  }

  lemma SignThenDigits(sign: bytes, digits: bytes, rest: bytes)
    requires IsReading([], sign, digits, rest)
    ensures Stoll(sign + (digits + rest)) == Read(sign, digits)
  {
    RunEnds(digits, rest);
    SignIsText(sign);
    hide DigitRun, DigitsValue;
    var t := digits + rest;
    assert t[..|digits|] == digits && t[0] == digits[0];
    assert sign != [] ==> (sign + t)[1..] == t && (sign + t)[0] == sign[0];
    assert sign == [] ==> sign + t == t;
  }

  lemma {:induction false} RunEnds(digits: bytes, rest: bytes)
    requires AllDigits(digits) && (|rest| > 0 ==> !IsDigit(rest[0]))
    ensures DigitRun(digits + rest) == |digits|
    decreases |digits|
  {
    if |digits| > 0 {
      RunEnds(digits[1..], rest);
      assert (digits + rest)[1..] == digits[1..] + rest;
    } else {
      assert digits + rest == rest;
    }
  }

  /** Whatever stoll accepts has that form. */
  lemma {:induction false} StollOnlyReads(s: bytes) returns (spaces: bytes, sign: bytes, digits: bytes, rest: bytes)
    requires Stoll(s).Some?
    ensures s == spaces + sign + digits + rest && IsReading(spaces, sign, digits, rest)
    ensures Stoll(s) == Read(sign, digits)
    decreases |s|
  {
    if |s| > 0 && IsSpace(s[0]) {
      hide DigitRun, AllDigits, Read;
      var inner;
      inner, sign, digits, rest := StollOnlyReads(s[1..]);
      spaces := [s[0]] + inner;
      assert inner == spaces[1..] && s == [s[0]] + (inner + sign + digits + rest);
    } else {
      spaces := [];
      sign := if |s| > 0 && (s[0] == MINUS || s[0] == PLUS) then s[..1] else [];
      digits, rest := SignedReads(s, sign);
      assert s == [] + sign + digits + rest;
    }
  }

  lemma SignedReads(s: bytes, sign: bytes) returns (digits: bytes, rest: bytes)
    requires Stoll(s).Some? && (|s| > 0 ==> !IsSpace(s[0]))
    requires sign == if |s| > 0 && (s[0] == MINUS || s[0] == PLUS) then s[..1] else []
    ensures s == sign + digits + rest && IsReading([], sign, digits, rest)
    ensures Stoll(s) == Read(sign, digits)
  {
    hide DigitRun, DigitsValue, AllDigits;
    var t := s[|sign|..];
    var n := DigitRun(t);
    RunIsDigits(t);
    digits, rest := t[..n], t[n..];
    SignIsText(sign);
    assert t == digits + rest && s == sign + t;
  }

  lemma SignIsText(sign: bytes)
    ensures sign == [MINUS] <==> sign == Text("-")
    ensures sign == [PLUS] <==> sign == Text("+")
  {
  }

  lemma {:induction false} RunIsDigits(s: bytes)
    ensures AllDigits(s[..DigitRun(s)]) && (DigitRun(s) < |s| ==> !IsDigit(s[DigitRun(s)]))
  {
    if |s| > 0 && IsDigit(s[0]) {
      RunIsDigits(s[1..]);
      assert s[..DigitRun(s)] == [s[0]] + s[1..][..DigitRun(s[1..])];
    }
  }

  /** The digits read from the left: the first counts as many tens as digits follow it. */
  lemma {:induction false} DigitsCount(digits: bytes)
    requires |digits| > 0
    ensures DigitsValue(digits) == (digits[0] as int - '0' as int) * Pow10(|digits| - 1) + DigitsValue(digits[1..])
    decreases |digits|
  {
    var n := |digits| - 1;
    if n > 0 {
      DigitsCount(digits[..n]);
      assert digits[..n][1..] == digits[1..][..n - 1];
      var d: int, p: int := digits[0] as int - '0' as int, Pow10(n - 1);
      assert d * (10 * p) == 10 * (d * p);
    } else {
      assert digits[..0] == [] == digits[1..];
    }
  }

  function Pow10(n: nat): nat {
    if n == 0 then 1 else 10 * Pow10(n - 1)
  }

  // ----- stoll inverts to_string -----

  lemma {:induction false} DigitsValueOfDigits(n: nat)
    ensures DigitsValue(Digits(n)) == n
  {
    if n < 10 {
      assert Digits(n)[..0] == [];
    } else {
      DigitsValueOfDigits(n / 10);
      assert Digits(n)[..|Digits(n)| - 1] == Digits(n / 10);
    }
  }

  lemma {:induction false} DigitRunOfDigits(s: bytes)
    requires AllDigits(s)
    ensures DigitRun(s) == |s|
  {
    if |s| > 0 { DigitRunOfDigits(s[1..]); }
  }

  lemma ConvertDigits(n: nat, sign: int)
    requires INT64_MIN <= sign * n <= INT64_MAX
    ensures Convert(Digits(n), sign) == Some(sign * n)
  {
    var d := Digits(n);
    assert d[..|d|] == d;
    DigitRunOfDigits(d);
    DigitsValueOfDigits(n);
  }

  lemma StollOfToString(n: int)
    requires INT64_MIN <= n <= INT64_MAX
    ensures Stoll(ToString(n)) == Some(n)
  {
    var d := Digits(if n < 0 then -n else n);
    assert d[..|d|] == d;
    assert n < 0 ==> ToString(n)[1..] == d;
    ConvertDigits(if n < 0 then -n else n, if n < 0 then -1 else 1);
  }

  // ----- Canonical numerals, by their own grammar -----

  /** A digit string without redundant leading zeros. */
  predicate CanonicalNatural(s: bytes) {
    |s| > 0 && AllDigits(s) && (s[0] == ZERO ==> |s| == 1)
  }

  /** A canonical natural, or a minus sign before a nonzero one. */
  predicate CanonicalInteger(s: bytes) {
    if |s| > 0 && s[0] == MINUS then CanonicalNatural(s[1..]) && s[1] != ZERO else CanonicalNatural(s)
  }

  function IntegerValue(s: bytes): int
    requires CanonicalInteger(s)
  {
    if s[0] == MINUS then -DigitsValue(s[1..]) else DigitsValue(s)
  }

  lemma {:induction false} DigitsCanonical(n: nat)
    ensures CanonicalNatural(Digits(n))
    ensures n > 0 ==> Digits(n)[0] != ZERO
  {
    if n >= 10 { DigitsCanonical(n / 10); }
  }

  /** to_string writes exactly the canonical numerals ... */
  lemma ToStringCanonical(n: int)
    ensures CanonicalInteger(ToString(n)) && IntegerValue(ToString(n)) == n
  {
    DigitsCanonical(if n < 0 then -n else n);
    DigitsValueOfDigits(if n < 0 then -n else n);
    assert n < 0 ==> ToString(n)[1..] == Digits(-n);
  }

  lemma {:induction false} DigitsOfDigitsValue(s: bytes)
    requires CanonicalNatural(s)
    ensures DigitsValue(s) >= 0 && Digits(DigitsValue(s)) == s
    ensures s[0] != ZERO ==> DigitsValue(s) > 0
  {
    if |s| == 1 {
      assert DigitsValue(s[..0]) == 0;
      assert s == [s[0]];
    } else {
      var t := s[..|s| - 1];
      assert t[0] == s[0];
      DigitsOfDigitsValue(t);
      assert s == t + [s[|s| - 1]];
    }
  }

  /** ... and every canonical numeral is the one to_string writes for its value. */
  lemma ToStringOfIntegerValue(s: bytes)
    requires CanonicalInteger(s)
    ensures ToString(IntegerValue(s)) == s
  {
    if s[0] == MINUS {
      DigitsOfDigitsValue(s[1..]);
      assert s == [MINUS] + s[1..];
    } else {
      DigitsOfDigitsValue(s);
    }
  }
}
