/** The loops of the parser that walk over the text: white space, words, numbers, string literals. */
module Scanning {
  import opened Bytes
  import opened Values
  import opened Syntax
  import opened Parsing
  import opened ParsingTheorems
  import opened Nodes

  method SkipBlanks(z: CString, i: nat) returns (j: nat)
    requires i < |z|
    ensures j == Skip(z, i)
  {
    j := i;
    while z[j] != 0 && z[j] <= 32
      invariant i <= j < |z| && Skip(z, i) == Skip(z, j)
      decreases |z| - j
    {
      j := j + 1;
    }
  }

  /** strncmp against a literal: it stops at the first difference, so never behind the terminator. */
  method Matches(z: CString, i: nat, w: bytes) returns (b: bool)
    requires i < |z| && NulFree(w)
    ensures b == StartsWith(z, i, w)
  {
    var k := 0;
    while k < |w|
      invariant 0 <= k <= |w| && i + k < |z| && z[i..i + k] == w[..k]
    {
      if z[i + k] != w[k] {
        if StartsWith(z, i, w) {
          SpanAt(z, i, w, i + |w|, k);
        }
        return false;
      }
      assert z[i..i + k + 1] == z[i..i + k] + [z[i + k]];
      assert w[..k + 1] == w[..k] + [w[k]];
      k := k + 1;
    }
    assert w[..k] == w;
    return true;
  }

  // ---------- Numbers ----------

  predicate DigitsIn(z: CString, i: nat, j: nat) {
    i <= j <= |z| && forall k | i <= k < j :: IsDigit(z[k])
  }

  function DigitSlice(z: CString, i: nat, j: nat): Digits
    requires DigitsIn(z, i, j)
  {
    z[i..j]
  }

  lemma NatStep(w: Digits, z: CString, i: nat, j: nat)
    requires i <= j && DigitsIn(z, i, j + 1)
    ensures NatOf(w + DigitSlice(z, i, j + 1)) == NatOf(w + DigitSlice(z, i, j)) * 10 + (z[j] as int - ZERO)
  {
    var s := w + DigitSlice(z, i, j + 1);
    assert s[..|s| - 1] == w + DigitSlice(z, i, j);
    assert s[|s| - 1] == z[j];
  }

  /** Reads digits from i on, continuing the number n that the digits w spell. */
  method ReadDigits(z: CString, i: nat, n0: nat, ghost w: Digits) returns (n: nat, j: nat)
    requires i < |z| && n0 == NatOf(w)
    ensures j == RunEnd(z, i) && n == NatOf(w + Run(z, i))
  {
    j, n := i, n0;
    assert w + DigitSlice(z, i, i) == w;
    while ZERO <= z[j] <= NINE
      invariant j < |z| && DigitsIn(z, i, j) && RunEnd(z, i) == RunEnd(z, j)
      invariant n == NatOf(w + DigitSlice(z, i, j))
      decreases |z| - j
    {
      NatStep(w, z, i, j);
      n := n * 10 + (z[j] as int - ZERO);
      j := j + 1;
    }
  }

  /** The digits before the point. */
  method ReadWhole(z: CString, i: nat) returns (n: nat, j: nat)
    requires i < |z|
    ensures n == NatOf(LexWhole(z, i)) && j == i + |LexWhole(z, i)|
  {
    n, j := 0, i;
    if ZERO < z[j] <= NINE {
      n, j := ReadDigits(z, j, 0, []);
      assert [] + Run(z, i) == Run(z, i);
    }
  }

  /** The digits behind the point carry on the number n; each takes one off the scale. */
  method ReadFrac(z: CString, i: nat, n0: nat, ghost w: Digits) returns (n: nat, scale: int, j: nat)
    requires i < |z| && n0 == NatOf(w)
    ensures n == NatOf(w + LexFrac(z, i)) && scale == -|LexFrac(z, i)| && j == i + |RenderFrac(LexFrac(z, i))|
  {
    n, scale, j := n0, 0, i;
    assert w + [] == w;
    if z[j] == DOT && ZERO <= z[j + 1] <= NINE {
      n, j := ReadDigits(z, i + 1, n, w);
      RunSound(z, i + 1);
      scale := i + 1 - j;
    }
  }

  method ReadExp(z: CString, i: nat) returns (exponent: int, j: nat)
    requires i < |z|
    ensures exponent == ExpValue(LexExp(z, i)) && j == i + |RenderExp(LexExp(z, i))|
  {
    var subscale: nat, signsubscale: int := 0, 1;
    j := i;
    if z[j] == LOWER_E || z[j] == UPPER_E {
      j := j + 1;
      if z[j] == PLUS {
        j := j + 1;
      } else if z[j] == MINUS {
        signsubscale, j := -1, j + 1;
      }
      ghost var k := j;
      subscale, j := ReadDigits(z, j, 0, []);
      assert [] + Run(z, k) == Run(z, k);
    }
    exponent := subscale * signsubscale;
  }

  /** parse_number in exact arithmetic: the value of the numeral, all of which is consumed. */
  method ParseNumber(item: Node, z: CString, i: nat) returns (end: nat)
    requires i < |z| && StartsNumeral(z[i])
    modifies item`valuedouble, item`valueint, item`kind
    ensures end == LexNumeral(z, i).end
    ensures item.valuedouble == NumeralValue(LexNumeral(z, i).num)
    ensures item.valueint == Truncated(item.valuedouble) && item.kind == KNumber
  {
    hide LexWhole, LexFrac, LexExp, RenderFrac, RenderExp, NatOf, ExpValue, Pow10;
    var sign, p := 1.0, i;
    if z[p] == MINUS {
      sign, p := -1.0, p + 1;
    }
    if z[p] == ZERO {
      p := p + 1;
    }
    var n, scale, exponent;
    ghost var whole := LexWhole(z, p);
    n, p := ReadWhole(z, p);
    n, scale, p := ReadFrac(z, p, n, whole);
    exponent, p := ReadExp(z, p);
    var v := sign * (n as real) * Pow10(scale + exponent);
    item.valuedouble := v;
    item.valueint := Truncated(v);
    item.kind := KNumber;
    return p;
  }
}
