/** parse_string: one pass that counts, one that decodes into a buffer of that size. */
module StringScanning {
  import opened Bytes
  import opened Bits
  import opened Utf8
  import opened Syntax
  import opened Parsing

  // ---------- The first pass ----------

  /** How far the counting loop gets from i on. */
  function Count(z: CString, i: nat): nat
    requires i < |z|
    decreases |z| - i
  {
    if z[i] == QUOTE || z[i] == 0 then 0
    else if z[i] != BACKSLASH then 1 + Count(z, i + 1)
    else if z[i + 1] == 0 then 1
    else 1 + Count(z, i + 2)
  }

  /** The same count on the literal: an escape counts one, the four digits of a code unit one each. */
  function Cost(l: Lit): nat {
    match l
    case End => 0
    case Raw(_, r) => 1 + Cost(r)
    case Esc(_, r) => 1 + Cost(r)
    case Uni(_, _, _, _, r) => 5 + Cost(r)
  }

  lemma {:induction false} CountIsCost(z: CString, i: nat)
    requires i < |z| && LexLit(z, i).Literal?
    ensures Count(z, i) == Cost(LexLit(z, i).lit)
    decreases |z| - i
  {
    if z[i] == QUOTE || z[i] == 0 {
    } else if z[i] != BACKSLASH {
      CountIsCost(z, i + 1);
    } else if z[i + 1] == LOWER_U {
      CountIsCost(z, i + 6);
      HexCount(z, i + 2);
    } else {
      CountIsCost(z, i + 2);
    }
  }

  lemma HexCount(z: CString, k: nat)
    requires HexAt(z, k) && k + 4 < |z|
    ensures Count(z, k) == 4 + Count(z, k + 4)
    ensures LexLit(z, k + 4).Literal? ==> LexLit(z, k).Literal?
  {
    assert Count(z, k + 2) == 2 + Count(z, k + 4);
    assert LexLit(z, k + 4).Literal? ==> LexLit(z, k + 2).Literal?;
  }

  /** Decoding never makes a literal longer than its count. */
  lemma {:induction false} DecodedFits(l: Lit)
    ensures |Decoded(l)| <= Cost(l)
  {
    match l
    case End =>
    case Raw(_, r) => DecodedFits(r);
    case Esc(_, r) => DecodedFits(r);
    case Uni(h1, h2, h3, h4, r) =>
      DecodedFits(r);
      UnitLength(CodeUnit(h1, h2, h3, h4));
      if r.Uni? {
        DecodedFits(r.rest);
      }
  }

  lemma UnitLength(u: nat)
    requires u < 0x10000
    ensures |Encode(u)| <= 3
  {
  }

  lemma {:induction false} DecodedNulFree(l: Lit)
    requires ValidLit(l)
    ensures NulFree(Decoded(l))
  {
    match l
    case End =>
    case Raw(_, r) => DecodedNulFree(r);
    case Esc(_, r) => DecodedNulFree(r);
    case Uni(h1, h2, h3, h4, r) =>
      DecodedNulFree(r);
      if r.Uni? {
        DecodedNulFree(r.rest);
      }
  }

  method CountLiteral(z: CString, start: nat) returns (len: nat)
    requires start < |z| && LexLit(z, start).Literal?
    ensures len == Cost(LexLit(z, start).lit)
  {
    CountIsCost(z, start);
    len := 0;
    var ptr := start;
    while z[ptr] != QUOTE && z[ptr] != 0
      invariant ptr < |z| && LexLit(z, ptr).Literal?
      invariant Count(z, start) == len + Count(z, ptr)
      decreases |z| - ptr
    {
      len := len + 1;
      if z[ptr] == BACKSLASH {
        if z[ptr + 1] == LOWER_U {
          HexCount(z, ptr + 2);
        }
        ptr := ptr + 2;
      } else {
        ptr := ptr + 1;
      }
    }
  }

  // ---------- The second pass ----------

  /** One hexadecimal digit added to h; ok is false, and h untouched, when there is none. */
  method AddHexDigit(h0: nat, b: byte) returns (h: nat, ok: bool)
    ensures ok == IsHex(b) && h == if IsHex(b) then h0 + HexValue(b) else h0
  {
    if ZERO <= b <= NINE {
      return h0 + (b as int - ZERO), true;
    } else if 65 <= b <= 70 {
      return h0 + (10 + (b as int - 65)), true;
    } else if 97 <= b <= 102 {
      return h0 + (10 + (b as int - 97)), true;
    }
    return h0, false;
  }

  /** parse_hex4: zero when a digit is missing; it does not read behind the first byte that is none. */
  method ParseHex4(z: CString, k: nat) returns (h: nat)
    requires k < |z|
    ensures h == if HexAt(z, k) then CodeUnit(z[k], z[k + 1], z[k + 2], z[k + 3]) else 0
  {
    var ok;
    h, ok := AddHexDigit(0, z[k]);
    if !ok {
      return 0;
    }
    h, ok := AddHexDigit(h * 16, z[k + 1]);
    if !ok {
      return 0;
    }
    h, ok := AddHexDigit(h * 16, z[k + 2]);
    if !ok {
      return 0;
    }
    h, ok := AddHexDigit(h * 16, z[k + 3]);
    if !ok {
      return 0;
    }
  }

  /** The transcoding switch: the bytes are written from the last to the first, six bits at a time. */
  method WriteUtf8(out: array<byte>, at: nat, u: nat) returns (next: nat)
    requires u <= 0x10FFFF && at + |Encode(u)| <= out.Length
    modifies out
    ensures next == at + |Encode(u)|
    ensures out[..next] == old(out[..at]) + Encode(u)
  {
    var uc := u;
    var len := 4;
    if uc < 0x80 {
      len := 1;
    } else if uc < 0x800 {
      len := 2;
    } else if uc < 0x10000 {
      len := 3;
    }
    assert len == |Encode(u)|;
    var ptr2 := at + len;
    next := ptr2;
    ghost var tails := if len == 1 then [] else Encode(u)[1..];
    assert out[ptr2..next] == [];
    if len >= 4 {
      ptr2, uc := PutTail(out, ptr2, uc, at, next);
    }
    assert uc == (if len == 4 then u / 64 else u) && out[ptr2..next] == (if len == 4 then tails[2..] else []);
    if len >= 3 {
      ptr2, uc := PutTail(out, ptr2, uc, at, next);
    }
    assert uc == (if len == 4 then u / 64 / 64 else if len == 3 then u / 64 else u);
    assert out[ptr2..next] == (if len >= 3 then tails[1..] else []);
    if len >= 2 {
      ptr2, uc := PutTail(out, ptr2, uc, at, next);
    }
    assert out[ptr2..next] == tails && ptr2 - 1 == at && out[..at] == old(out[..at]);
    ghost var lead := PutLead(out, ptr2, uc, len, next);
    assert Encode(u) == [lead] + tails;
  }

  /** One continuation byte in front of p; the code point loses the six bits it holds. */
  method PutTail(out: array<byte>, p: nat, uc: nat, ghost at: nat, ghost e: nat) returns (p': nat, uc': nat)
    requires at < p <= e <= out.Length
    modifies out
    ensures p' == p - 1 && uc' == uc / 64
    ensures out[p'..e] == [0x80 + uc % 64] + old(out[p..e]) && out[..at] == old(out[..at])
  {
    hide And, Or;
    TailBits(uc);
    p' := p - 1;
    out[p'] := And(Or(uc, 0x80), 0xBF);
    uc' := uc / 64;
    assert out[p..e] == old(out[p..e]);
    assert out[p'..e] == [out[p']] + out[p..e];
  }

  /** The lead byte in front of p. */
  method PutLead(out: array<byte>, p: nat, uc: nat, len: nat, ghost e: nat) returns (ghost lead: byte)
    requires 0 < p <= e <= out.Length && 1 <= len <= 4
    requires uc < (match len case 1 => 0x80 case 2 => 0x20 case 3 => 0x10 case _ => 0x08)
    modifies out
    ensures lead == match len case 1 => uc case 2 => 0xC0 + uc case 3 => 0xE0 + uc case _ => 0xF0 + uc
    ensures out[..e] == old(out[..p - 1]) + ([lead] + old(out[p..e]))
  {
    hide Or;
    LeadBits(uc);
    lead := Or(uc, FIRST_BYTE_MARK[len]);
    out[p - 1] := Or(uc, FIRST_BYTE_MARK[len]);
    assert out[p..e] == old(out[p..e]) && out[..p - 1] == old(out[..p - 1]);
    assert out[..e] == out[..p - 1] + ([out[p - 1]] + out[p..e]);
  }

  /** What a code unit escape at p, which is the index of its u, comes to: the bytes it stands for and
      the index of the last byte it takes. */
  method TranscodeEscape(z: CString, p: nat, out: array<byte>, at: nat) returns (next: nat, last: nat)
    requires 0 < p && p + 5 < |z| && z[p - 1] == BACKSLASH && z[p] == LOWER_U && LexLit(z, p - 1).Literal?
    requires at + |Decoded(LexLit(z, p - 1).lit)| <= out.Length
    modifies out
    ensures p < last && last + 1 < |z| && LexLit(z, last + 1).Literal?
    ensures LexLit(z, last + 1).end == LexLit(z, p - 1).end
    ensures at <= next <= out.Length && out[..at] == old(out[..at])
    ensures Decoded(LexLit(z, p - 1).lit) == out[at..next] + Decoded(LexLit(z, last + 1).lit)
  {
    hide LexLit, Decoded, Encode, HexAt, CodeUnit, And, Or;
    var uc := ParseHex4(z, p + 1);
    last, next := p + 4, at;
    if IsLowSurrogate(uc) || uc == 0 {
      UnitAlone(z, p, uc);
      return;
    }
    if IsHighSurrogate(uc) {
      if z[p + 5] != BACKSLASH || z[p + 6] != LOWER_U {
        UnitAlone(z, p, uc);
        return;
      }
      var uc2 := ParseHex4(z, p + 7);
      last := p + 10;
      UnitPair(z, p, uc, uc2);
      if !IsLowSurrogate(uc2) {
        return;
      }
      PairBits(uc, uc2);
      uc := 0x10000 + Or(And(uc, 0x3FF) * 0x400, And(uc2, 0x3FF));
    } else {
      UnitAlone(z, p, uc);
    }
    next := WriteUtf8(out, at, uc);
    assert out[at..next] == out[..next][at..];
  }

  /** A code unit that no second one follows: what it denotes. */
  lemma UnitAlone(z: CString, p: nat, uc: nat)
    requires 0 < p && p + 5 < |z| && z[p - 1] == BACKSLASH && z[p] == LOWER_U && LexLit(z, p - 1).Literal?
    requires uc == if HexAt(z, p + 1) then CodeUnit(z[p + 1], z[p + 2], z[p + 3], z[p + 4]) else 0
    requires IsHighSurrogate(uc) ==> z[p + 5] != BACKSLASH || z[p + 6] != LOWER_U
    ensures LexLit(z, p + 5).Literal? && LexLit(z, p + 5).end == LexLit(z, p - 1).end
    ensures uc <= 0x10FFFF
    ensures Decoded(LexLit(z, p - 1).lit) ==
            (if IsLowSurrogate(uc) || uc == 0 || IsHighSurrogate(uc) then [] else Encode(uc))
            + Decoded(LexLit(z, p + 5).lit)
  {
  }

  /** A high surrogate and the code unit behind it. */
  lemma UnitPair(z: CString, p: nat, uc: nat, uc2: nat)
    requires 0 < p && p + 6 < |z| && z[p - 1] == BACKSLASH && z[p] == LOWER_U && LexLit(z, p - 1).Literal?
    requires uc == if HexAt(z, p + 1) then CodeUnit(z[p + 1], z[p + 2], z[p + 3], z[p + 4]) else 0
    requires IsHighSurrogate(uc) && z[p + 5] == BACKSLASH && z[p + 6] == LOWER_U
    requires p + 7 < |z| && uc2 == if HexAt(z, p + 7) then CodeUnit(z[p + 7], z[p + 8], z[p + 9], z[p + 10]) else 0
    ensures p + 11 < |z| && LexLit(z, p + 11).Literal? && LexLit(z, p + 11).end == LexLit(z, p - 1).end
    ensures Decoded(LexLit(z, p - 1).lit) ==
            (if IsLowSurrogate(uc2) then Encode(PairValue(uc, uc2)) else []) + Decoded(LexLit(z, p + 11).lit)
  {
  }

  /** The letters b, f, n, r, t stand for control characters, any other byte for itself. */
  method EscapedByte(c: byte) returns (b: byte)
    ensures b == Unescaped(c)
  {
    if c == LOWER_B {
      return BACKSPACE;
    } else if c == LOWER_F {
      return FF;
    } else if c == LOWER_N {
      return LF;
    } else if c == LOWER_R {
      return CR;
    } else if c == LOWER_T {
      return TAB;
    }
    return c;
  }

  /** One turn of the decoding loop. */
  method DecodePiece(z: CString, ptr: nat, out: array<byte>, at: nat) returns (at': nat, ptr': nat)
    requires ptr < |z| && z[ptr] != QUOTE && z[ptr] != 0 && LexLit(z, ptr).Literal?
    requires at + |Decoded(LexLit(z, ptr).lit)| <= out.Length
    modifies out
    ensures ptr < ptr' < |z| && LexLit(z, ptr').Literal? && LexLit(z, ptr').end == LexLit(z, ptr).end
    ensures at <= at' <= out.Length && out[..at] == old(out[..at])
    ensures Decoded(LexLit(z, ptr).lit) == out[at..at'] + Decoded(LexLit(z, ptr').lit)
  {
    if z[ptr] != BACKSLASH {
      out[at] := z[ptr];
      at', ptr' := at + 1, ptr + 1;
    } else if z[ptr + 1] == LOWER_U {
      at', ptr' := TranscodeEscape(z, ptr + 1, out, at);
      ptr' := ptr' + 1;
    } else {
      var b := EscapedByte(z[ptr + 1]);
      out[at] := b;
      at', ptr' := at + 1, ptr + 2;
    }
  }

  /** Decodes the literal body at start into the buffer, which the first pass has sized. */
  method DecodeLiteral(z: CString, start: nat, out: array<byte>) returns (n: nat, ptr: nat)
    requires start < |z| && LexLit(z, start).Literal? && Cost(LexLit(z, start).lit) < out.Length
    modifies out
    ensures ptr == LexLit(z, start).end
    ensures n < out.Length && out[..n] == Decoded(LexLit(z, start).lit) && out[n] == 0
  {
    hide Decoded, Cost, LexLit, IsCString;
    ghost var all := Decoded(LexLit(z, start).lit);
    DecodedFits(LexLit(z, start).lit);
    n, ptr := 0, start;
    assert out[..0] + all == all;
    while z[ptr] != QUOTE && z[ptr] != 0
      invariant ptr < |z| && LexLit(z, ptr).Literal? && LexLit(z, ptr).end == LexLit(z, start).end
      invariant n <= |all| < out.Length && out[..n] + Decoded(LexLit(z, ptr).lit) == all
      decreases |z| - ptr
    {
      ghost var before := out[..n];
      var n', ptr' := DecodePiece(z, ptr, out, n);
      assert out[..n'] == before + out[n..n'];
      n, ptr := n', ptr';
    }
    LitStops(z, ptr);
    DecodedEnd();
    assert out[..n] + [] == out[..n];
    out[n] := 0;
  }

  lemma LitStops(z: CString, i: nat)
    requires i < |z| && (z[i] == QUOTE || z[i] == 0)
    ensures LexLit(z, i) == Literal(End, i)
  {
  }

  lemma DecodedEnd()
    ensures Decoded(End) == []
  {
  }
}
