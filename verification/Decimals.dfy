/** Numbers printed in decimal. */
module Decimals {
  import opened Bytes

  const ZERO_DIGIT: byte := 48

  function Digits(n: nat): seq<byte> {
    if n < 10 then [ZERO_DIGIT + n] else Digits(n / 10) + [ZERO_DIGIT + n % 10]
  }

  function DigitsValue(s: seq<byte>): Option<nat> {
    if s == [] then None
    else
      var last := s[|s| - 1];
      if last < ZERO_DIGIT || last > ZERO_DIGIT + 9 then None
      else if |s| == 1 then Some(last - ZERO_DIGIT)
      else
        match DigitsValue(s[..|s| - 1])
        case None => None
        case Some(v) => Some(10 * v + (last - ZERO_DIGIT))
  }

  /** Another digit at the end stands for ten times the number and the digit; "0" is 30 in ASCII. */
  lemma {:induction false} DigitsAppend(n: nat, d: nat, s: seq<byte>)
    requires d < 10
    ensures Digits(10 * n + d) == (if n == 0 then [] else Digits(n)) + [0x30 + d]
    ensures DigitsValue(s + [0x30 + d])
            == if s == [] then Some(d)
               else if DigitsValue(s).None? then None
               else Some(10 * DigitsValue(s).value + d)
  {
    assert (10 * n + d) / 10 == n && (10 * n + d) % 10 == d;
    assert (s + [0x30 + d])[..|s|] == s;
  }

  lemma {:induction false} DigitsRoundTrip(n: nat)
    ensures DigitsValue(Digits(n)) == Some(n) && Digits(n) != []
    ensures forall i :: 0 <= i < |Digits(n)| ==> ZERO_DIGIT <= Digits(n)[i] <= ZERO_DIGIT + 9
  {
    if n >= 10 {
      DigitsRoundTrip(n / 10);
      assert Digits(n)[..|Digits(n)| - 1] == Digits(n / 10);
    }
  }

  lemma {:induction false} DigitsInjective(a: nat, b: nat)
    requires Digits(a) == Digits(b)
    ensures a == b
  {
    hide Digits, DigitsValue;
    DigitsRoundTrip(a);
    DigitsRoundTrip(b);
  }
}
