/** Bytes, and natural numbers written in decimal ASCII digits. */
module Decimal {

  type Byte = b: nat | b < 256

  type Bytes = seq<Byte>

  const ZERO: Byte := 48

  /** The largest integer a double-precision number represents with all its predecessors. */
  const MAX_SAFE_INTEGER: nat := 0x1F_FFFF_FFFF_FFFF

  predicate IsDigit(b: Byte) {
    ZERO <= b <= ZERO + 9
  }

  function Digits(n: nat): (s: Bytes)
    ensures s != [] && forall b :: b in s ==> IsDigit(b)
  {
    if n < 10 then [ZERO + n] else Digits(n / 10) + [ZERO + n % 10]
  }

  /** How many digits `s` starts with. */
  function DigitRun(s: Bytes): (n: nat)
    ensures n <= |s| && (forall i :: 0 <= i < n ==> IsDigit(s[i])) && (n < |s| ==> !IsDigit(s[n]))
  {
    if s == [] || !IsDigit(s[0]) then 0 else 1 + DigitRun(s[1..])
  }

  /** The number a string of digits denotes. */
  function Value(s: Bytes): nat
    requires forall b :: b in s ==> IsDigit(b)
  {
    if s == [] then 0
    else
      assert IsDigit(s[|s| - 1]);
      10 * Value(s[..|s| - 1]) + (s[|s| - 1] - ZERO)
  }

  /** Reading back what was written. */
  lemma {:induction false} ValueOfDigits(n: nat)
    ensures Value(Digits(n)) == n
  {
    var s := Digits(n);
    if n < 10 {
      assert s[..0] == [];
    } else {
      ValueOfDigits(n / 10);
      assert s[..|s| - 1] == Digits(n / 10);
    }
  }

  lemma {:induction false} RunOfDigits(s: Bytes, rest: Bytes)
    requires forall b :: b in s ==> IsDigit(b)
    requires rest == [] || !IsDigit(rest[0])
    ensures DigitRun(s + rest) == |s|
    decreases |s|
  {
    if s == [] {
      assert s + rest == rest;
    } else {
      RunOfDigits(s[1..], rest);
      assert (s + rest)[1..] == s[1..] + rest;
    }
  }

  /** Two numbers followed by something that is not a digit are told apart. */
  lemma DigitsUnambiguous(m: nat, a: Bytes, n: nat, b: Bytes)
    requires Digits(m) + a == Digits(n) + b
    requires (a == [] || !IsDigit(a[0])) && (b == [] || !IsDigit(b[0]))
    ensures m == n && a == b
  {
    hide IsDigit, Digits, Value;
    RunOfDigits(Digits(m), a);
    RunOfDigits(Digits(n), b);
    var s := Digits(m) + a;
    assert s[..|Digits(m)|] == Digits(m) && s[|Digits(m)|..] == a;
    assert s[..|Digits(n)|] == Digits(n) && s[|Digits(n)|..] == b;
    ValueOfDigits(m);
    ValueOfDigits(n);
  }
}
