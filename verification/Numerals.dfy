/** The number a numeral stands for, told in whole powers of ten. */
module Numerals {
  import opened Values
  import opened Syntax

  lemma Pow10One()
    ensures Pow10(0) == 1.0 && Pow10(1) == 10.0
  {
  }

  lemma Pow10Next(k: int)
    ensures Pow10(k + 1) == 10.0 * Pow10(k)
  {
  }

  /** Powers of ten multiply as their exponents add, whatever their signs. */
  lemma {:induction false} Pow10Sum(a: int, b: int)
    ensures Pow10(a + b) == Pow10(a) * Pow10(b)
    decreases if b < 0 then -b else b
  {
    hide Pow10;
    Pow10One();
    if b > 0 {
      Pow10Sum(a, b - 1);
      Pow10Next(a + b - 1);
      Pow10Next(b - 1);
      Raise(Pow10(a), Pow10(b - 1), Pow10(a + b - 1), Pow10(b), Pow10(a + b));
    } else if b < 0 {
      Pow10Sum(a, b + 1);
      Pow10Next(a + b);
      Pow10Next(b);
      Lower(Pow10(a), Pow10(b), Pow10(a + b), Pow10(b + 1), Pow10(a + b + 1));
    }
  }

  lemma Shift(x: real, y: real)
    ensures x * (10.0 * y) == 10.0 * (x * y)
  {
  }

  lemma Raise(x: real, y: real, xy: real, y': real, xy': real)
    requires xy == x * y && y' == 10.0 * y && xy' == 10.0 * xy
    ensures xy' == x * y'
  {
    Shift(x, y);
  }

  lemma Lower(x: real, y: real, xy: real, y': real, xy': real)
    requires xy' == x * y' && y' == 10.0 * y && xy' == 10.0 * xy
    ensures xy == x * y
  {
    Shift(x, y);
  }

  lemma {:induction false} Pow10Nat(k: nat)
    ensures Pow10(k) == TenTo(k) as real > 0.0
  {
    if k > 0 {
      Pow10Nat(k - 1);
      TenTimes(TenTo(k - 1));
    }
  }

  lemma TenTimes(n: nat)
    ensures (10 * n) as real == 10.0 * (n as real)
  {
  }

  lemma Pow10Less(k: int, d: nat)
    ensures Pow10(k - d) * (TenTo(d) as real) == Pow10(k)
  {
    Pow10Sum(k - d, d);
    Pow10Nat(d);
  }

  function Signed(neg: bool, n: nat): real {
    if neg then -(n as real) else n as real
  }

  lemma Unsigned(neg: bool, n: nat)
    ensures (if neg then -1.0 else 1.0) * (n as real) == Signed(neg, n)
  {
  }

  /** Without an exponent the digits count tenths of their number as often as there are digits behind the point. */
  lemma PlainValue(n: Numeral)
    requires n.exp.NoExp?
    ensures NumeralValue(n) * (TenTo(|n.frac|) as real) == Signed(n.neg, NatOf(n.whole + n.frac))
  {
    hide Pow10, NatOf;
    Pow10One();
    Pow10Less(0, |n.frac|);
    Unsigned(n.neg, NatOf(n.whole + n.frac));
    Regroup(Signed(n.neg, NatOf(n.whole + n.frac)), Pow10(-|n.frac|), TenTo(|n.frac|) as real);
  }

  lemma Regroup(a: real, b: real, c: real)
    ensures a * b * c == a * (b * c)
  {
  }

  /** An exponent multiplies by that power of ten. */
  lemma RaisedValue(n: Numeral)
    requires n.exp.Exp? && !n.exp.sign.MinusSign?
    ensures NumeralValue(n) == NumeralValue(n.(exp := NoExp)) * (TenTo(NatOf(n.exp.digits)) as real)
  {
    hide Pow10, NatOf;
    var d := NatOf(n.exp.digits);
    Pow10Sum(-|n.frac|, d);
    Pow10Nat(d);
    Regroup((if n.neg then -1.0 else 1.0) * (NatOf(n.whole + n.frac) as real), Pow10(-|n.frac|), TenTo(d) as real);
  }

  /** An exponent with a minus sign divides by it. */
  lemma LoweredValue(n: Numeral)
    requires n.exp.Exp? && n.exp.sign.MinusSign?
    ensures NumeralValue(n) * (TenTo(NatOf(n.exp.digits)) as real) == NumeralValue(n.(exp := NoExp))
  {
    hide Pow10, NatOf;
    var d := NatOf(n.exp.digits);
    Pow10Less(-|n.frac|, d);
    assert ExpValue(n.exp) - |n.frac| == -|n.frac| - d;
    Regroup((if n.neg then -1.0 else 1.0) * (NatOf(n.whole + n.frac) as real), Pow10(-|n.frac| - d), TenTo(d) as real);
  }
}
