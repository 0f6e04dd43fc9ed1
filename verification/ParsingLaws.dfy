/** Where the parser goes beyond RFC 8259: what it skips, and what escapes stand for that the standard leaves open. */
module ParsingLaws {
  import opened Bytes
  import opened Values
  import opened Utf8
  import opened Syntax
  import opened Parsing
  import opened ParsingTheorems
  import opened Rfc8259
  import opened RfcTheorems

  lemma NullAlone(b: byte)
    requires 0 < b <= 32
    ensures ParseDoc(Terminated([b] + Ascii("null")), true).Ok?
    ensures Meaning(ParseDoc(Terminated([b] + Ascii("null")), true).value.value) == Null
  {
    var d := Doc([b], CNull, []);
    Tokens();
    assert RenderDoc(d) == [b] + Ascii("null");
    hide ParseDoc;
    DocComplete(d);
  }

  lemma CutFirst(b: byte, x: bytes, w: bytes, y: bytes)
    requires [b] + w == x + (w + y) && |w| == 4 && w[0] != w[1]
    ensures x == [b]
  {
    var s := [b] + w;
    assert s[0] == b && s[1] == w[0] && (x + (w + y))[|x| + 1] == w[1];
    assert s[..|x|] == x && s[..1] == [b];
  }

  lemma NullOnly(b: byte)
    requires b != 0 && NulFree([b] + NULL_WORD)
    requires var r := ParseDoc(Terminated([b] + NULL_WORD), true); r.Ok? && Meaning(r.value.value) == Null
    ensures b <= 32
  {
    hide ParseDoc;
    var z := Terminated([b] + NULL_WORD);
    var d := ParseDoc(z, true).value;
    DocSound(z);
    assert d.value == CNull;
    assert z[..5] == [b] + NULL_WORD && (RenderDoc(d) + [0])[..|RenderDoc(d)|] == RenderDoc(d);
    CutFirst(b, d.before, NULL_WORD, d.after);
    assert IsSkipped(d.before[0]);
  }

  /** A byte in front of a value is passed over if and only if it is a control byte or a space. */
  lemma SkipsExactly(b: byte)
    requires b != 0
    ensures NulFree([b] + Ascii("null"))
    ensures var r := ParseDoc(Terminated([b] + Ascii("null")), true);
      (r.Ok? && Meaning(r.value.value) == Null) <==> b <= 32
  {
    Tokens();
    hide ParseDoc, Ascii;
    var r := ParseDoc(Terminated([b] + NULL_WORD), true);
    if b <= 32 {
      NullAlone(b);
    }
    if r.Ok? && Meaning(r.value.value) == Null {
      NullOnly(b);
    }
  }

  // ---------- Escapes that the standard leaves open ----------

  /** Four hexadecimal digits as a code unit escape in front of a literal. */
  function Escaped(h: bytes, l: Lit): Lit
    requires |h| == 4 && IsHex(h[0]) && IsHex(h[1]) && IsHex(h[2]) && IsHex(h[3])
  {
    Uni(h[0], h[1], h[2], h[3], l)
  }

  lemma HexFour(h: bytes, u: nat)
    requires IsHex4(h, u)
    ensures |h| == 4 && IsHex(h[0]) && IsHex(h[1]) && IsHex(h[2]) && IsHex(h[3])
  {
    UnitOf(h, u);
  }

  /** The number zero, the second half of a pair alone, and the first half with anything but an escape behind it stand
      for nothing; a first half takes an escape behind it along that is no second half. */
  lemma OpenEscapes(h: bytes, u: nat, g: bytes, v: nat, l: Lit)
    requires IsHex4(h, u) && IsHex4(g, v)
    ensures (HexFour(h, u);
      u == 0 || 0xDC00 <= u <= 0xDFFF || (0xD800 <= u <= 0xDBFF && !l.Uni?) ==> Decoded(Escaped(h, l)) == Decoded(l))
    ensures (HexFour(h, u); HexFour(g, v);
      0xD800 <= u <= 0xDBFF && !(0xDC00 <= v <= 0xDFFF) ==> Decoded(Escaped(h, Escaped(g, l))) == Decoded(l))
  {
    UnitOf(h, u);
    UnitOf(g, v);
    hide CodeUnit, Encode;
  }

  /** A backslash in front of any other byte is dropped. */
  lemma OtherEscape(c: byte, l: Lit)
    requires forall i | 0 <= i < 6 :: c != Ascii("bfnrtu")[i]
    ensures Decoded(Esc(c, l)) == [c] + Decoded(l)
  {
    assert Ascii("bfnrtu") == [LOWER_B, LOWER_F, LOWER_N, LOWER_R, LOWER_T, LOWER_U];
    assert forall i | 0 <= i < 6 :: c != [LOWER_B, LOWER_F, LOWER_N, LOWER_R, LOWER_T, LOWER_U][i];
    assert c != [LOWER_B, LOWER_F, LOWER_N, LOWER_R, LOWER_T, LOWER_U][0];
    assert c != [LOWER_B, LOWER_F, LOWER_N, LOWER_R, LOWER_T, LOWER_U][1];
    assert c != [LOWER_B, LOWER_F, LOWER_N, LOWER_R, LOWER_T, LOWER_U][2];
    assert c != [LOWER_B, LOWER_F, LOWER_N, LOWER_R, LOWER_T, LOWER_U][3];
    assert c != [LOWER_B, LOWER_F, LOWER_N, LOWER_R, LOWER_T, LOWER_U][4];
  }

  /** Bytes that need no escape stand for themselves, and an unclosed string stands for what a closed one would. */
  lemma PlainString(s: bytes)
    requires forall i | 0 <= i < |s| :: s[i] != 0 && s[i] != 0x22 && s[i] != 0x5C
    ensures NulFree(Ascii("\"") + s) && NulFree(Ascii("\"") + s + Ascii("\""))
    ensures var r := ParseDoc(Terminated(Ascii("\"") + s), true); r.Ok? && Meaning(r.value.value) == Str(s)
    ensures var r := ParseDoc(Terminated(Ascii("\"") + s + Ascii("\"")), true);
      r.Ok? && Meaning(r.value.value) == Str(s)
  {
    var l := Plain(s);
    assert Ascii("\"") == [QUOTE];
    hide Ascii, ParseDoc;
    assert RenderDoc(Doc([], COpenString(l), [])) == Ascii("\"") + s;
    DocComplete(Doc([], COpenString(l), []));
    assert RenderDoc(Doc([], CString(l), [])) == Ascii("\"") + s + Ascii("\"");
    DocComplete(Doc([], CString(l), []));
  }

  lemma {:induction false} Plain(s: bytes) returns (l: Lit)
    requires forall i | 0 <= i < |s| :: s[i] != 0 && s[i] != 0x22 && s[i] != 0x5C
    ensures ValidLit(l) && RenderLit(l) == s && Decoded(l) == s
  {
    if s == [] {
      l := End;
    } else {
      var r := Plain(s[1..]);
      l := Raw(s[0], r);
      assert s == [s[0]] + s[1..];
    }
  }
}
