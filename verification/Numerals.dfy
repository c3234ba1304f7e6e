/** Decimal numerals. */
module Numerals {
  import opened Machine

  predicate AllDigits(s: seq<byte>) { forall i :: 0 <= i < |s| ==> IsDigit(s[i]) }

  function Digits(n: nat): (s: seq<byte>)
    ensures s != [] && forall i :: 0 <= i < |s| ==> IsDigit(s[i])
  {
    if n < 10 then [48 + n] else Digits(n / 10) + [48 + n % 10]
  }

  function Decimal(v: int): seq<byte> {
    if v < 0 then [MINUS] + Digits(-v) else Digits(v)
  }

  /** The value of a digit string, without any bound. */
  function Numeral(s: seq<byte>): int {
    if s == [] then 0 else Numeral(s[..|s| - 1]) * 10 + s[|s| - 1] as int - 48
  }

  lemma {:induction false} NumeralOfDigits(n: nat)
    ensures Numeral(Digits(n)) == n
  {
    if n >= 10 {
      NumeralOfDigits(n / 10);
      assert Digits(n)[..|Digits(n)| - 1] == Digits(n / 10);
    } else {
      assert Digits(n)[..0] == [];
    }
  }

  lemma DecimalShape(v: int)
    ensures Decimal(v) != [] && (if v < 0 then Decimal(v)[0] == MINUS else IsDigit(Decimal(v)[0]))
    ensures forall i :: 1 <= i < |Decimal(v)| ==> IsDigit(Decimal(v)[i])
    ensures Decimal(v) != [MINUS]
  {
    if v < 0 {
      assert Decimal(v)[1..] == Digits(-v);
    }
  }

  /** Numerals of different numbers differ. */
  lemma DecimalIsInjective(v: int, w: int)
    ensures Decimal(v) == Decimal(w) <==> v == w
  {
    hide Digits, Numeral;
    if Decimal(v) == Decimal(w) {
      DecimalShape(v);
      DecimalShape(w);
      if v < 0 {
        assert Decimal(v)[1..] == Digits(-v) && Decimal(w)[1..] == Digits(-w);
        NumeralOfDigits(-v);
        NumeralOfDigits(-w);
      } else {
        NumeralOfDigits(v);
        NumeralOfDigits(w);
      }
    }
  }
}
