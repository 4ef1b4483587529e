// Text of 8-bit characters, and decimal numbers in it.
module Decimals {

  type Char8 = c: char | c as int < 256 witness ' '

  type Text = seq<Char8>

  predicate IsSpace(c: Char8) {
    c == ' ' || '\t' <= c <= '\r'
  }

  predicate Digit(c: Char8) {
    '0' <= c <= '9'
  }

  function DigitChar(d: nat): Char8
    requires d < 10
  {
    (d + '0' as int) as char
  }

  /** A number as a stream prints it. */
  function Decimal(n: nat): Text {
    if n < 10 then [DigitChar(n)] else Decimal(n / 10) + [DigitChar(n % 10)]
  }

  predicate AllDigits(s: Text) {
    forall i :: 0 <= i < |s| ==> Digit(s[i])
  }

  /** The number some digits stand for. */
  function ValueOf(s: Text): nat
    requires AllDigits(s)
  {
    if s == [] then 0 else ValueOf(s[..|s| - 1]) * 10 + s[|s| - 1] as int - '0' as int
  }

  /** How many digits a text starts with. */
  function DigitCount(s: Text): (n: nat)
    ensures n <= |s| && AllDigits(s[..n]) && (n < |s| ==> !Digit(s[n]))
  {
    if s == [] || !Digit(s[0]) then 0
    else
      assert forall i :: 1 <= i < |s| ==> s[i] == s[1..][i - 1];
      1 + DigitCount(s[1..])
  }

  /** Reading the digits of a printed number gives the number back; only 0 starts with a 0. */
  lemma {:induction false} DecimalIsRead(n: nat)
    ensures Decimal(n) != [] && AllDigits(Decimal(n)) && ValueOf(Decimal(n)) == n
    ensures Decimal(n)[0] == '0' ==> Decimal(n) == "0"
  {
    if n >= 10 {
      DecimalIsRead(n / 10);
      assert Decimal(n)[..|Decimal(n)| - 1] == Decimal(n / 10);
    }
  }

  /** Digits in front of a text are counted with those it starts with. */
  lemma {:induction false} DigitCountOf(s: Text, rest: Text)
    requires AllDigits(s)
    ensures DigitCount(s + rest) == |s| + DigitCount(rest)
    ensures (s + rest)[..|s|] == s && (s + rest)[|s|..] == rest
  {
    if s == [] {
      assert s + rest == rest;
    } else {
      DigitCountOf(s[1..], rest);
      assert (s + rest)[1..] == s[1..] + rest;
    }
  }
}
