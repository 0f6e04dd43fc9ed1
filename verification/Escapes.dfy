/** Which texts the parser can be given: those whose string escapes are complete. */
module Escapes {
  import opened Bytes
  import opened Syntax
  import opened Parsing
  import opened ParsingTheorems

  /** From i on, outside a string, no escape is cut short. */
  predicate Outside(z: CString, i: nat)
    requires i < |z|
    decreases |z| - i
  {
    z[i] == 0 || (if z[i] == QUOTE then Inside(z, i + 1) else Outside(z, i + 1))
  }

  /** From i on, inside a string: a backslash is never the last byte, and after a \u come four
      hexadecimal digits. */
  predicate Inside(z: CString, i: nat)
    requires i < |z|
    decreases |z| - i
  {
    if z[i] == 0 then true
    else if z[i] == QUOTE then Outside(z, i + 1)
    else if z[i] != BACKSLASH then Inside(z, i + 1)
    else if z[i + 1] == 0 then false
    else if z[i + 1] == LOWER_U then HexAt(z, i + 2) && Inside(z, i + 6)
    else Inside(z, i + 2)
  }

  lemma {:induction false} LitStays(z: CString, i: nat)
    requires i < |z| && Inside(z, i)
    ensures LexLit(z, i).Literal?
    ensures var e := LexLit(z, i).end; Outside(z, if z[e] == QUOTE then e + 1 else e)
    decreases |z| - i
  {
    if z[i] == QUOTE || z[i] == 0 {
    } else if z[i] != BACKSLASH {
      LitStays(z, i + 1);
    } else if z[i + 1] == LOWER_U {
      LitStays(z, i + 6);
    } else {
      LitStays(z, i + 2);
    }
  }

  lemma StringStays(z: CString, i: nat)
    requires i < |z| && Outside(z, i)
    ensures !LexString(z, i).BadEscape?
    ensures LexString(z, i).Ok? ==> Outside(z, LexString(z, i).end)
  {
    if z[i] == QUOTE {
      LitStays(z, i + 1);
    }
  }

  lemma {:induction false} SkipStays(z: CString, i: nat)
    requires i < |z| && Outside(z, i)
    ensures Outside(z, Skip(z, i))
    decreases |z| - i
  {
    if IsSkipped(z[i]) {
      SkipStays(z, i + 1);
    }
  }

  predicate QuoteFree(s: bytes) {
    forall k | 0 <= k < |s| :: s[k] != QUOTE
  }

  /** Text without quotes stays outside. */
  lemma {:induction false} SpanStays(z: CString, i: nat, s: bytes, j: nat)
    requires Spans(z, i, s, j) && QuoteFree(s) && j < |z| && Outside(z, i)
    ensures Outside(z, j)
    decreases |s|
  {
    if s != [] {
      SpanTail(z, i, s, j);
      SpanStays(z, i + 1, s[1..], j);
    }
  }

  lemma JoinQuoteFree(a: bytes, b: bytes)
    requires QuoteFree(a) && QuoteFree(b)
    ensures QuoteFree(a + b)
  {
  }

  lemma NumeralQuoteFree(n: Numeral)
    requires ValidNumeral(n)
    ensures QuoteFree(RenderNumeral(n))
  {
    var neg: bytes, zero: bytes := if n.neg then [MINUS] else [], if n.zero then [ZERO] else [];
    assert QuoteFree(neg) && QuoteFree(zero);
    DigitsQuoteFree(n.whole);
    FracQuoteFree(n.frac);
    ExpQuoteFree(n.exp);
    hide QuoteFree, RenderFrac, RenderExp;
    JoinQuoteFree(RenderFrac(n.frac), RenderExp(n.exp));
    JoinQuoteFree(n.whole, RenderFrac(n.frac) + RenderExp(n.exp));
    JoinQuoteFree(zero, n.whole + (RenderFrac(n.frac) + RenderExp(n.exp)));
    JoinQuoteFree(neg, zero + (n.whole + (RenderFrac(n.frac) + RenderExp(n.exp))));
  }

  lemma FracQuoteFree(frac: Values.Digits)
    ensures QuoteFree(RenderFrac(frac))
  {
    DigitsQuoteFree(frac);
  }

  lemma ExpQuoteFree(e: Exponent)
    requires e.Exp? ==> e.mark == LOWER_E || e.mark == UPPER_E
    ensures QuoteFree(RenderExp(e))
  {
    if e.Exp? {
      DigitsQuoteFree(e.digits);
      JoinQuoteFree(RenderSign(e.sign), e.digits);
    }
  }

  lemma DigitsQuoteFree(ds: Values.Digits)
    ensures QuoteFree(ds)
  {
    forall k | 0 <= k < |ds| ensures ds[k] != QUOTE {
      var d: Values.Digit := ds[k];
    }
  }

  lemma ScalarStays(z: CString, i: nat)
    requires i < |z| && Outside(z, i)
    ensures !ParseScalar(z, i).BadEscape?
    ensures ParseScalar(z, i).Ok? ==> Outside(z, ParseScalar(z, i).end)
  {
    StringStays(z, i);
    hide LexString, LexNumeral, Outside, IsCString;
    var r := ParseScalar(z, i);
    if StartsWith(z, i, NULL_WORD) {
      SpanStays(z, i, NULL_WORD, i + 4);
    } else if StartsWith(z, i, FALSE_WORD) {
      SpanStays(z, i, FALSE_WORD, i + 5);
    } else if StartsWith(z, i, TRUE_WORD) {
      SpanStays(z, i, TRUE_WORD, i + 4);
    } else if z[i] != QUOTE && StartsNumeral(z[i]) {
      NumeralSound(z, i);
      NumeralQuoteFree(r.value.num);
      SpanStays(z, i, RenderNumeral(r.value.num), r.end);
    }
  }

  lemma {:induction false} ValueStays(z: CString, i: nat)
    requires i < |z| && Outside(z, i)
    ensures !ParseValue(z, i).BadEscape?
    ensures ParseValue(z, i).Ok? ==> Outside(z, ParseValue(z, i).end)
    decreases |z| - i, 0
  {
    if z[i] == LBRACKET {
      assert Outside(z, i + 1);
      SkipStays(z, i + 1);
      var j := Skip(z, i + 1);
      if z[j] != RBRACKET {
        ElemsStay(z, i + 1);
      }
    } else if z[i] == LBRACE {
      assert Outside(z, i + 1);
      SkipStays(z, i + 1);
      var j := Skip(z, i + 1);
      if z[j] != RBRACE {
        MembersStay(z, i + 1);
      }
    } else {
      ScalarStays(z, i);
    }
  }

  lemma {:induction false} ElemsStay(z: CString, i: nat)
    requires i < |z| && Outside(z, i)
    ensures !ParseElems(z, i).BadEscape?
    ensures ParseElems(z, i).Ok? ==> Outside(z, ParseElems(z, i).end)
    decreases |z| - i, 1
  {
    hide Skip, ParseValue;
    SkipStays(z, i);
    ValueStays(z, Skip(z, i));
    var v := ParseValue(z, Skip(z, i));
    if v.Ok? {
      SkipStays(z, v.end);
      var a := Skip(z, v.end);
      if z[a] == COMMA {
        assert Outside(z, a + 1);
        ElemsStay(z, a + 1);
      }
    }
  }

  lemma NameStays(z: CString, i: nat)
    requires i < |z| && Outside(z, i)
    ensures !ParseName(z, i).BadEscape?
    ensures ParseName(z, i).Ok? ==> Outside(z, ParseName(z, i).end)
  {
    hide Skip, LexString;
    SkipStays(z, i);
    StringStays(z, Skip(z, i));
    var s := LexString(z, Skip(z, i));
    if s.Ok? {
      SkipStays(z, s.end);
      var m := Skip(z, s.end);
      if z[m] == COLON {
        assert Outside(z, m + 1);
        SkipStays(z, m + 1);
      }
    }
  }

  lemma {:induction false} MembersStay(z: CString, i: nat)
    requires i < |z| && Outside(z, i)
    ensures !ParseMembers(z, i).BadEscape?
    ensures ParseMembers(z, i).Ok? ==> Outside(z, ParseMembers(z, i).end)
    decreases |z| - i, 1
  {
    hide Skip, ParseValue, ParseName;
    NameStays(z, i);
    var n := ParseName(z, i);
    if n.Ok? {
      ValueStays(z, n.end);
      var v := ParseValue(z, n.end);
      if v.Ok? {
        SkipStays(z, v.end);
        var a := Skip(z, v.end);
        if z[a] == COMMA {
          assert Outside(z, a + 1);
          MembersStay(z, a + 1);
        }
      }
    }
  }

  /** On a text with complete escapes the parser gives a value or a place of failure inside the text. */
  lemma DocStays(z: CString, whole: bool)
    requires Outside(z, 0)
    ensures var r := ParseDoc(z, whole);
      || (r.Ok? && 0 < r.end < |z|)
      || (r.Fail? && r.at < |z|)
  {
    SkipStays(z, 0);
    ValueStays(z, Skip(z, 0));
  }
}
