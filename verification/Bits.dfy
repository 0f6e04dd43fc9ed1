/** The bitwise operators of C on non-negative integers, and the laws the engine relies on.
    A right shift by k is division by Pow2(k), a left shift multiplication. */
module Bits {
  function Or(a: nat, b: nat): nat {
    if a == 0 && b == 0 then 0
    else 2 * Or(a / 2, b / 2) + (if a % 2 == 1 || b % 2 == 1 then 1 else 0)
  }

  function And(a: nat, b: nat): nat {
    if a == 0 || b == 0 then 0
    else 2 * And(a / 2, b / 2) + (if a % 2 == 1 && b % 2 == 1 then 1 else 0)
  }

  function Pow2(k: nat): (p: nat)
    ensures p > 0
  {
    if k == 0 then 1 else 2 * Pow2(k - 1)
  }

  lemma {:induction false} OrZero(a: nat)
    ensures Or(a, 0) == a && Or(0, a) == a
  {
    if a > 0 {
      OrZero(a / 2);
    }
  }

  lemma {:induction false} OrFits(a: nat, b: nat, k: nat)
    requires a < Pow2(k) && b < Pow2(k)
    ensures Or(a, b) < Pow2(k)
  {
    if k > 0 && (a > 0 || b > 0) {
      OrFits(a / 2, b / 2, k - 1);
    }
  }

  /** The halves above and below bit j do not interact. */
  lemma {:induction false} OrSplit(h: nat, l: nat, g: nat, m: nat, j: nat)
    requires l < Pow2(j) && m < Pow2(j)
    ensures Or(Pow2(j) * h + l, Pow2(j) * g + m) == Pow2(j) * Or(h, g) + Or(l, m)
  {
    hide Or;
    Pow2Step(j);
    if j > 0 {
      OrSplit(h, l / 2, g, m / 2, j - 1);
      OrWhole(Pow2(j - 1), h, l, g, m);
    } else {
      NoBits();
    }
  }

  lemma OrWhole(p: nat, h: nat, l: nat, g: nat, m: nat)
    requires Or(p * h + l / 2, p * g + m / 2) == p * Or(h, g) + Or(l / 2, m / 2)
    ensures Or(2 * p * h + l, 2 * p * g + m) == 2 * p * Or(h, g) + Or(l, m)
  {
    hide Or;
    MulNat(p, h);
    MulNat(p, g);
    OrStep(p * h, l, p * g, m, p * Or(h, g));
    Double(p, h);
    Double(p, g);
    Double(p, Or(h, g));
  }

  lemma NoBits()
    ensures Or(0, 0) == And(0, 0) == 0
  {
  }

  lemma Pow2Step(j: nat)
    ensures Pow2(j) == if j == 0 then 1 else 2 * Pow2(j - 1)
  {
  }

  lemma MulNat(p: nat, h: nat)
    ensures p * h >= 0
  {
  }

  lemma OrStep(x: nat, l: nat, y: nat, m: nat, w: nat)
    requires Or(x + l / 2, y + m / 2) == w + Or(l / 2, m / 2)
    ensures Or(2 * x + l, 2 * y + m) == 2 * w + Or(l, m)
  {
    OrHalf(x + l / 2, l % 2, y + m / 2, m % 2);
    OrHalf(l / 2, l % 2, m / 2, m % 2);
  }

  lemma Double(p: int, x: int)
    ensures 2 * p * x == 2 * (p * x)
  {
  }

  lemma {:induction false} AndSplit(h: nat, l: nat, g: nat, m: nat, j: nat)
    requires l < Pow2(j) && m < Pow2(j)
    ensures And(Pow2(j) * h + l, Pow2(j) * g + m) == Pow2(j) * And(h, g) + And(l, m)
  {
    hide And;
    Pow2Step(j);
    if j > 0 {
      AndSplit(h, l / 2, g, m / 2, j - 1);
      AndWhole(Pow2(j - 1), h, l, g, m);
    } else {
      NoBits();
    }
  }

  lemma AndWhole(p: nat, h: nat, l: nat, g: nat, m: nat)
    requires And(p * h + l / 2, p * g + m / 2) == p * And(h, g) + And(l / 2, m / 2)
    ensures And(2 * p * h + l, 2 * p * g + m) == 2 * p * And(h, g) + And(l, m)
  {
    hide And;
    MulNat(p, h);
    MulNat(p, g);
    AndStep(p * h, l, p * g, m, p * And(h, g));
    Double(p, h);
    Double(p, g);
    Double(p, And(h, g));
  }

  lemma AndStep(x: nat, l: nat, y: nat, m: nat, w: nat)
    requires And(x + l / 2, y + m / 2) == w + And(l / 2, m / 2)
    ensures And(2 * x + l, 2 * y + m) == 2 * w + And(l, m)
  {
    AndHalf(x + l / 2, l % 2, y + m / 2, m % 2);
    AndHalf(l / 2, l % 2, m / 2, m % 2);
  }

  lemma OrHalf(a: nat, i: nat, b: nat, j: nat)
    requires i < 2 && j < 2
    ensures Or(2 * a + i, 2 * b + j) == 2 * Or(a, b) + (if i == 1 || j == 1 then 1 else 0)
  {
  }

  lemma AndHalf(a: nat, i: nat, b: nat, j: nat)
    requires i < 2 && j < 2
    ensures And(2 * a + i, 2 * b + j) == 2 * And(a, b) + (if i == 1 && j == 1 then 1 else 0)
  {
  }

  /** Masking with k ones is the remainder modulo the k-th power of two. */
  lemma {:induction false} AndMask(a: nat, k: nat)
    ensures And(a, Pow2(k) - 1) == a % Pow2(k)
  {
    if k > 0 {
      var p := Pow2(k - 1);
      AndMask(a / 2, k - 1);
      AndHalf(a / 2, a % 2, p - 1, 1);
      assert 2 * (p - 1) + 1 == Pow2(k) - 1;
      ModHalf(a, p);
    }
  }

  lemma ModHalf(a: nat, p: nat)
    requires p > 0
    ensures a % (2 * p) == 2 * ((a / 2) % p) + a % 2
  {
    var q, r := (a / 2) / p, (a / 2) % p;
    assert a / 2 == p * q + r;
    assert a == 2 * p * q + (2 * r + a % 2);
    DivModUnique(a, 2 * p, q, 2 * r + a % 2);
  }

  lemma DivModUnique(a: int, d: int, q: int, r: int)
    requires d > 0 && 0 <= r < d && a == d * q + r
    ensures a / d == q && a % d == r
  {
    assert d * (q - a / d) == a % d - r;
    MulGap(d, q - a / d);
  }

  lemma MulGap(d: int, k: int)
    requires d > 0
    ensures k >= 1 ==> d * k >= d
    ensures k <= -1 ==> d * k <= -d
  {
  }

  /** Setting bits that lie wholly above a number adds them. */
  lemma OrAbove(a: nat, j: nat, m: nat)
    requires a < Pow2(j)
    ensures Or(a, Pow2(j) * m) == a + Pow2(j) * m
  {
    hide Or, Pow2;
    OrSplit(0, a, m, 0, j);
    OrZero(a);
    OrZero(m);
  }

  lemma SmallPowers()
    ensures Pow2(3) == 8 && Pow2(4) == 16 && Pow2(5) == 32 && Pow2(6) == 64 && Pow2(10) == 1024
  {
    assert Pow2(3) == 8;
    assert Pow2(6) == 64;
    assert Pow2(8) == 256;
  }
}
