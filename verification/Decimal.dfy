/** Byte sequences, one character for each byte, and decimal numerals in them. */
module Decimal {

  type Bytes = string

  // The largest integer a JavaScript number holds exactly together with its neighbours.
  const MAX_SAFE_INTEGER: int := 9007199254740991

  predicate IsDigit(c: char) {
    '0' <= c <= '9'
  }

  predicate AllDigits(s: Bytes) {
    forall i :: 0 <= i < |s| ==> IsDigit(s[i])
  }

  function Print(n: nat): Bytes {
    if n < 10 then [('0' as int + n) as char] else Print(n / 10) + [('0' as int + n % 10) as char]
  }

  function Value(digits: Bytes): nat
    requires AllDigits(digits)
  {
    if digits == [] then 0
    else 10 * Value(digits[..|digits| - 1]) + (digits[|digits| - 1] as int - '0' as int)
  }

  // The length of the numeral a byte sequence starts with.
  function DigitCount(s: Bytes): (n: nat)
    ensures n <= |s| && (forall k :: 0 <= k < n ==> IsDigit(s[k])) && (n < |s| ==> !IsDigit(s[n]))
  {
    if s != [] && IsDigit(s[0]) then 1 + DigitCount(s[1..]) else 0
  }

  lemma {:induction false} PrintIsNumeral(n: nat)
    ensures Print(n) != [] && AllDigits(Print(n)) && Value(Print(n)) == n
  {
    if n >= 10 {
      PrintIsNumeral(n / 10);
      assert Print(n)[..|Print(n)| - 1] == Print(n / 10);
    }
  }

  // A printed number is read back, whatever follows it that is not a digit.
  lemma ReadBack(n: nat, rest: Bytes)
    requires rest == [] || !IsDigit(rest[0])
    ensures var s := Print(n) + rest; s[..DigitCount(s)] == Print(n) && s[DigitCount(s)..] == rest
    ensures AllDigits(Print(n)) && Value(Print(n)) == n
  {
    PrintIsNumeral(n);
    var s, p, k := Print(n) + rest, |Print(n)|, DigitCount(Print(n) + rest);
    assert s[..p] == Print(n) && s[p..] == rest;
    assert forall i :: 0 <= i < p ==> s[i] == Print(n)[i];
    assert forall i :: 0 <= i < k ==> s[i] == s[..k][i];
    assert k == p;
  }
}
