/** The decimal text `append` makes of a number argument (`buf.toString()`), as ASCII bytes. */
module Decimal {
  import opened Chunks

  const Zero: byte := 48
  const Minus: byte := 45

  predicate IsDigit(b: byte) { Zero <= b <= Zero + 9 }

  /** The decimal digits of `n`, most significant first, without leading zeros. */
  function Digits(n: nat): seq<byte>
  {
    if n < 10 then [Zero + n as byte]
    else Digits(n / 10) + [Zero + (n % 10) as byte]
  }

  /** `String(n)` for an integer below 10^21 in magnitude: a minus sign for negatives, then the digits. */
  function DecimalText(n: int): seq<byte>
  {
    if n < 0 then [Minus] + Digits(-n) else Digits(n)
  }

  /** The value of a string of digits. */
  function DigitsValue(s: seq<byte>): nat
    requires forall i :: 0 <= i < |s| ==> IsDigit(s[i])
  {
    if s == [] then 0
    else assert IsDigit(s[|s| - 1]); DigitsValue(s[..|s| - 1]) * 10 + (s[|s| - 1] as int - Zero as int)
  }

  /** The value of a decimal text, with an optional leading minus sign. */
  function DecimalValue(s: seq<byte>): int
    requires s != [] ==> forall i :: 0 < i < |s| ==> IsDigit(s[i])
    requires s != [] && s[0] != Minus ==> IsDigit(s[0])
  {
    if s != [] && s[0] == Minus then -(DigitsValue(s[1..]) as int) else DigitsValue(s)
  }

  /** `Digits` writes only digits, at least one, with no leading zero unless the number is 0. */
  lemma {:induction false} DigitsWellFormed(n: nat)
    ensures Digits(n) != []
    ensures forall i :: 0 <= i < |Digits(n)| ==> IsDigit(Digits(n)[i])
    ensures Digits(n)[0] == Zero <==> n == 0
  {
    if n >= 10 {
      DigitsWellFormed(n / 10);
      assert Digits(n)[0] == Digits(n / 10)[0];
    }
  }

  /** Reading the digits back gives the number. */
  lemma {:induction false} DigitsRoundTrip(n: nat)
    ensures forall i :: 0 <= i < |Digits(n)| ==> IsDigit(Digits(n)[i])
    ensures DigitsValue(Digits(n)) == n
  {
    DigitsWellFormed(n);
    if n >= 10 {
      var d := Digits(n);
      assert d[..|d| - 1] == Digits(n / 10);
      DigitsRoundTrip(n / 10);
    }
  }

  /** The text of a number reads back as that number. */
  lemma DecimalRoundTrip(n: int)
    ensures var t := DecimalText(n);
      (t != [] ==> forall i :: 0 < i < |t| ==> IsDigit(t[i])) &&
      (t != [] && t[0] != Minus ==> IsDigit(t[0])) &&
      DecimalValue(t) == n
  {
    var m := if n < 0 then -n else n;
    DigitsRoundTrip(m);
    DigitsWellFormed(m);
    if n < 0 {
      assert DecimalText(n)[1..] == Digits(m);
    }
  }
}
