/** Output memory: byte arrays that text is written into, and the growing buffer of the buffered printer. */
module Buffers {
  import opened Bytes
  import opened Bits
  import opened Nodes

  /** The array starts with `before` and then the text, which a NUL ends. */
  ghost predicate Wrote(a: array<byte>, before: bytes, text: bytes)
    reads a
  {
    && |before| + |text| < a.Length
    && a[..|before| + |text|] == before + text
    && a[|before| + |text|] == 0
  }

  /** strlen from index `at` on. */
  method StrLen(a: array<byte>, at: nat, ghost before: bytes, ghost text: bytes) returns (n: nat)
    requires Wrote(a, before, text) && NulFree(text) && |before| <= at <= |before| + |text|
    ensures at + n == |before| + |text|
  {
    ghost var e := |before| + |text|;
    forall k | at <= k < e ensures a[k] != 0 {
      assert a[k] == a[..e][k] == text[k - |before|];
    }
    n := 0;
    while a[at + n] != 0
      invariant at + n <= e
      decreases e - at - n
    {
      n := n + 1;
    }
  }

  /** memcpy of s to index `at`. */
  method PutText(a: array<byte>, at: nat, s: bytes)
    requires at + |s| <= a.Length
    modifies a
    ensures a[..at + |s|] == old(a[..at]) + s
  {
    var k := 0;
    while k < |s|
      invariant k <= |s| && a[..at + k] == old(a[..at]) + s[..k]
    {
      a[at + k] := s[k];
      assert a[..at + k + 1] == a[..at + k] + [s[k]];
      k := k + 1;
    }
    assert s[..k] == s;
  }

  /** strcpy. */
  method PutString(a: array<byte>, at: nat, s: bytes)
    requires at + |s| < a.Length
    modifies a
    ensures Wrote(a, old(a[..at]), s)
  {
    PutText(a, at, s);
    a[at + |s|] := 0;
  }

  // ---------- Powers of two ----------

  predicate Bit(a: nat, i: nat) {
    if i == 0 then a % 2 == 1 else Bit(a / 2, i - 1)
  }

  lemma {:induction false} OrBit(a: nat, b: nat, i: nat)
    ensures Bit(Or(a, b), i) <==> Bit(a, i) || Bit(b, i)
  {
    if i > 0 && (a > 0 || b > 0) {
      OrBit(a / 2, b / 2, i - 1);
    } else if i > 0 {
      ZeroBits(i);
    }
  }

  lemma {:induction false} ZeroBits(i: nat)
    ensures !Bit(0, i)
  {
    if i > 0 {
      ZeroBits(i - 1);
    }
  }

  /** A right shift. */
  function Shr(a: nat, s: nat): nat {
    if s == 0 then a else Shr(a / 2, s - 1)
  }

  lemma {:induction false} ShrDivides(a: nat, s: nat)
    ensures Shr(a, s) == a / Pow2(s)
  {
    if s > 0 {
      ShrDivides(a / 2, s - 1);
      DivTwice(a, Pow2(s - 1));
    }
  }

  lemma DivTwice(a: nat, p: nat)
    requires p > 0
    ensures a / (2 * p) == a / 2 / p
  {
    var q, r := (a / 2) / p, (a / 2) % p;
    assert a == 2 * p * q + (2 * r + a % 2) by {
      assert a / 2 == p * q + r;
    }
    DivModUnique(a, 2 * p, q, 2 * r + a % 2);
  }

  lemma {:induction false} ShiftBit(a: nat, s: nat, i: nat)
    ensures Bit(Shr(a, s), i) == Bit(a, i + s)
  {
    if s > 0 {
      ShiftBit(a / 2, s - 1, i);
    }
  }

  lemma {:induction false} ShrBelow(a: nat, s: nat)
    ensures Shr(a, s) <= a
  {
    if s > 0 {
      ShrBelow(a / 2, s - 1);
    }
  }

  /** All of the low k bits set. */
  lemma {:induction false} AllOnes(a: nat, k: nat)
    requires a < Pow2(k) && forall i | 0 <= i < k :: Bit(a, i)
    ensures a == Pow2(k) - 1
  {
    if k > 0 {
      forall i | 0 <= i < k - 1 ensures Bit(a / 2, i) {
        assert Bit(a, i + 1);
      }
      AllOnes(a / 2, k - 1);
      assert Bit(a, 0);
    }
  }

  lemma {:induction false} TopBit(a: nat) returns (k: nat)
    requires a > 0
    ensures k > 0 && Pow2(k - 1) <= a < Pow2(k) && Bit(a, k - 1)
  {
    if a == 1 {
      k := 1;
    } else {
      k := TopBit(a / 2);
      k := k + 1;
    }
  }

  ghost predicate IsPow2(r: nat) {
    exists k: nat :: r == Pow2(k)
  }

  /** The top s of k bits are set. */
  predicate TopOnes(x: nat, k: nat, s: nat) {
    x < Pow2(k) && forall i | 0 <= i < k <= i + s :: Bit(x, i)
  }

  /** Or-ing a number with itself shifted by s doubles the run of ones at its top. */
  lemma Smear(x: nat, k: nat, s: nat)
    requires TopOnes(x, k, s)
    ensures TopOnes(Or(x, Shr(x, s)), k, 2 * s)
  {
    ShrBelow(x, s);
    OrFits(x, Shr(x, s), k);
    forall i | 0 <= i < k <= i + 2 * s ensures Bit(Or(x, Shr(x, s)), i) {
      OrBit(x, Shr(x, s), i);
      ShiftBit(x, s, i);
    }
  }

  lemma {:induction false} Pow2Grows(j: nat, k: nat)
    requires j <= k
    ensures Pow2(j) <= Pow2(k)
  {
    if j < k {
      Pow2Grows(j, k - 1);
    }
  }

  /** The least power of two that is at least x, for as long as an int can hold it. */
  method Pow2gt(x: nat) returns (r: nat)
    requires 1 <= x <= 0x4000_0000
    ensures x <= r && IsPow2(r) && forall q: nat | IsPow2(q) && x <= q :: r <= q
  {
    hide Or, Shr, Bit;
    var y := x - 1;
    ghost var k := 0;
    if y > 0 {
      k := TopBit(y);
      BelowBillion(y, k);
    }
    assert TopOnes(y, k, 1);
    Smear(y, k, 1);
    y := Or(y, Shr(y, 1));
    Smear(y, k, 2);
    y := Or(y, Shr(y, 2));
    Smear(y, k, 4);
    y := Or(y, Shr(y, 4));
    Smear(y, k, 8);
    y := Or(y, Shr(y, 8));
    Smear(y, k, 16);
    y := Or(y, Shr(y, 16));
    AllOnes(y, k);
    forall q: nat | IsPow2(q) && x <= q ensures Pow2(k) <= q {
      var j: nat :| q == Pow2(j);
      if j < k {
        Pow2Grows(j, k - 1);
      } else {
        Pow2Grows(k, j);
      }
    }
    return y + 1;
  }

  lemma BelowBillion(y: nat, k: nat)
    requires k > 0 && Pow2(k - 1) <= y < 0x4000_0000
    ensures k <= 30
  {
    if k > 30 {
      Pow2Grows(30, k - 1);
      assert Pow2(30) == 0x4000_0000 by { Billion(); }
    }
  }

  lemma Billion()
    ensures Pow2(30) == 0x4000_0000
  {
    assert Pow2(10) == 1024;
    assert Pow2(20) == 0x10_0000;
  }
}
