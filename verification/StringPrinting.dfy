/** print_string_ptr and print_number into memory that is already there. */
module StringPrinting {
  import opened Bytes
  import opened Values
  import opened Syntax
  import opened Printing
  import opened Buffers

  // ---------- Strings ----------

  /** The contents of a C string. */
  function Body(z: CString): (s: bytes)
    ensures |s| == |z| - 1 && s == z[..|z| - 1]
  {
    z[..|z| - 1]
  }

  predicate AllPlain(s: bytes) {
    forall i | 0 <= i < |s| :: IsPlain(s[i])
  }

  lemma {:induction false} PlainEscape(s: bytes)
    requires AllPlain(s)
    ensures Escape(s) == s
  {
    if s != [] {
      PlainEscape(s[..|s| - 1]);
      assert s == s[..|s| - 1] + [s[|s| - 1]];
    }
  }

  /** The first loop: is there a byte that must be escaped? */
  method NeedsEscape(z: CString) returns (flag: bool)
    ensures flag == !AllPlain(Body(z))
  {
    flag := false;
    var i := 0;
    while z[i] != 0
      invariant i < |z| && flag == !AllPlain(z[..i])
      decreases |z| - i
    {
      flag := flag || 0 < z[i] < 32 || z[i] == QUOTE || z[i] == BACKSLASH;
      assert z[..i + 1] == z[..i] + [z[i]];
      i := i + 1;
    }
  }

  lemma EscapeSnoc(s: bytes, i: nat)
    requires i < |s|
    ensures Escape(s[..i + 1]) == Escape(s[..i]) + EscapeByte(s[i])
  {
    assert s[..i + 1][..i] == s[..i];
  }

  /** The counting loop of the escaping path. */
  method MeasureEscaped(z: CString) returns (len: nat)
    ensures len == |Escape(Body(z))|
  {
    len := 0;
    var i := 0;
    while z[i] != 0
      invariant i < |z| && len == |Escape(z[..i])|
      decreases |z| - i
    {
      EscapeSnoc(z, i);
      len := len + 1;
      if z[i] == QUOTE || z[i] == BACKSLASH || z[i] == BACKSPACE || z[i] == FF || z[i] == LF || z[i] == CR
          || z[i] == TAB {
        len := len + 1;
      } else if z[i] < 32 {
        len := len + 5;
      }
      i := i + 1;
    }
  }

  /** One turn of the writing loop; the NUL of sprintf falls inside the memory that was asked for. */
  method WriteEscaped(out: array<byte>, p: nat, b: byte) returns (q: nat)
    requires b != 0 && p + |EscapeByte(b)| < out.Length
    modifies out
    ensures q == p + |EscapeByte(b)| && out[..q] == old(out[..p]) + EscapeByte(b)
  {
    if b > 31 && b != QUOTE && b != BACKSLASH {
      out[p] := b;
      q := p + 1;
    } else {
      out[p] := BACKSLASH;
      if b == BACKSLASH {
        out[p + 1] := BACKSLASH;
        q := p + 2;
      } else if b == QUOTE {
        out[p + 1] := QUOTE;
        q := p + 2;
      } else if b == BACKSPACE {
        out[p + 1] := LOWER_B;
        q := p + 2;
      } else if b == FF {
        out[p + 1] := LOWER_F;
        q := p + 2;
      } else if b == LF {
        out[p + 1] := LOWER_N;
        q := p + 2;
      } else if b == CR {
        out[p + 1] := LOWER_R;
        q := p + 2;
      } else if b == TAB {
        out[p + 1] := LOWER_T;
        q := p + 2;
      } else {
        PutString(out, p + 1, [LOWER_U, ZERO, ZERO, HexDigitOf(b / 16), HexDigitOf(b % 16)]);
        q := p + 6;
      }
    }
  }

  /** The writing part, at index `at`: quote, contents, quote and NUL fill exactly what was asked for. */
  method WriteString(out: array<byte>, at: nat, z: CString, flag: bool)
    requires flag == !AllPlain(Body(z)) && at + |PrintString(Body(z))| < out.Length
    modifies out
    ensures Wrote(out, old(out[..at]), PrintString(Body(z)))
  {
    if flag {
      WriteEscapes(out, at, z);
    } else {
      WritePlain(out, at, z);
    }
  }

  method WritePlain(out: array<byte>, at: nat, z: CString)
    requires AllPlain(Body(z)) && at + |PrintString(Body(z))| < out.Length
    modifies out
    ensures Wrote(out, old(out[..at]), PrintString(Body(z)))
  {
    ghost var s, before := Body(z), out[..at];
    PlainEscape(s);
    out[at] := QUOTE;
    assert out[..at + 1] == before + [QUOTE];
    PutString(out, at + 1, Body(z));
    var len := |z| - 1;
    assert out[..at + 1 + len] == before + [QUOTE] + s;
    out[at + 1 + len] := QUOTE;
    out[at + 1 + len + 1] := 0;
    assert out[..at + 1 + len + 1] == before + [QUOTE] + s + [QUOTE];
    Around(before, s);
  }

  lemma Around(before: bytes, s: bytes)
    ensures before + [QUOTE] + s + [QUOTE] == before + ([QUOTE] + s + [QUOTE])
  {
  }

  method WriteEscapes(out: array<byte>, at: nat, z: CString)
    requires at + |PrintString(Body(z))| < out.Length
    modifies out
    ensures Wrote(out, old(out[..at]), PrintString(Body(z)))
  {
    hide EscapeByte, Escape, IsCString;
    ghost var s, before := Body(z), out[..at];
    var i, p := 0, at + 1;
    out[at] := QUOTE;
    EscapeNone(s);
    while z[i] != 0
      invariant i < |z| && p == at + 1 + |Escape(s[..i])| && |Escape(s[..i])| <= |Escape(s)|
      invariant out[..p] == before + [QUOTE] + Escape(s[..i])
      decreases |z| - i
    {
      SoFar(z, i);
      p := WriteEscaped(out, p, z[i]);
      assert out[..p] == before + [QUOTE] + Escape(s[..i]) + EscapeByte(z[i]);
      Appending(before + [QUOTE], Escape(s[..i]), EscapeByte(z[i]));
      i := i + 1;
    }
    AtEnd(z, i);
    out[p] := QUOTE;
    out[p + 1] := 0;
    assert out[..p + 1] == before + [QUOTE] + Escape(s) + [QUOTE];
    Around(before, Escape(s));
  }

  lemma Appending(a: bytes, b: bytes, c: bytes)
    ensures a + b + c == a + (b + c)
  {
  }

  lemma EscapeNone(s: bytes)
    ensures Escape(s[..0]) == []
  {
  }

  lemma SoFar(z: CString, i: nat)
    requires i < |z| && z[i] != 0
    ensures i < |Body(z)| && Body(z)[i] == z[i]
    ensures Escape(Body(z)[..i + 1]) == Escape(Body(z)[..i]) + EscapeByte(z[i])
    ensures |Escape(Body(z)[..i + 1])| <= |Escape(Body(z))|
  {
    EscapeSnoc(Body(z), i);
    EscapePrefix(Body(z), i + 1);
  }

  lemma AtEnd(z: CString, i: nat)
    requires i < |z| && z[i] == 0
    ensures i == |Body(z)| && Body(z)[..i] == Body(z)
  {
  }

  lemma {:induction false} EscapePrefix(s: bytes, i: nat)
    requires i <= |s|
    ensures |Escape(s[..i])| <= |Escape(s)|
    decreases |s|
  {
    if i < |s| {
      EscapePrefix(s[..|s| - 1], i);
      assert s[..|s| - 1][..i] == s[..i];
    } else {
      assert s[..i] == s;
    }
  }

  // ---------- Numbers ----------

  lemma {:induction false} DigitsLength(n: nat, k: nat)
    requires k > 0 && n < TenTo(k)
    ensures |DigitsOf(n)| <= k
    decreases k
  {
    if n >= 10 {
      DigitsLength(n / 10, k - 1);
    }
  }

  /** A 32-bit integer takes at most eleven bytes. */
  lemma IntLength(n: int)
    requires -0x8000_0000 <= n <= 0x7FFF_FFFF
    ensures 1 <= |PrintInt(n)| <= 11
  {
    assert TenTo(5) == 100000;
    assert TenTo(10) == 10000000000;
    DigitsLength(if n < 0 then -n else n, 10);
  }
}
