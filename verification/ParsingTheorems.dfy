/** The parser and Render are mutually inverse: what the parser returns is the syntax tree of exactly
    the text it consumed, and it finds every syntax tree back from its text. */
module ParsingTheorems {
  import opened Bytes
  import opened Values
  import opened Syntax
  import opened Parsing

  // ---------- Soundness ----------

  lemma {:induction false} SkipSound(z: CString, i: nat)
    requires i < |z|
    ensures AllSkipped(z[i..Skip(z, i)]) && !IsSkipped(z[Skip(z, i)])
    ensures z[i] == 0 ==> Skip(z, i) == i
    decreases |z| - i
  {
    if IsSkipped(z[i]) {
      SkipSound(z, i + 1);
      assert z[i..Skip(z, i)] == [z[i]] + z[i + 1..Skip(z, i)];
    }
  }

  lemma {:induction false} LitSound(z: CString, i: nat)
    requires i < |z| && LexLit(z, i).Literal?
    ensures var r := LexLit(z, i); ValidLit(r.lit) && Spans(z, i, RenderLit(r.lit), r.end)
    decreases |z| - i
  {
    var r := LexLit(z, i);
    SpanNone(z, i);
    hide Spans, IsCString;
    match r.lit
    case End =>
    case Raw(b, l) =>
      LitSound(z, i + 1);
      SpanByte(z, i, b);
      SpanJoin(z, i, [b], i + 1, RenderLit(l), r.end);
    case Esc(c, l) =>
      LitSound(z, i + 2);
      SpanPair(z, i);
      SpanJoin(z, i, [BACKSLASH, c], i + 2, RenderLit(l), r.end);
    case Uni(h1, h2, h3, h4, l) =>
      LitSound(z, i + 6);
      SpanPair(z, i);
      SpanPair(z, i + 2);
      SpanPair(z, i + 4);
      SpanJoin3(z, i, [BACKSLASH, LOWER_U], i + 2, [h1, h2], i + 4, [h3, h4], i + 6);
      SpanJoin(z, i, [BACKSLASH, LOWER_U, h1, h2, h3, h4], i + 6, RenderLit(l), r.end);
  }

  lemma StringSound(z: CString, i: nat)
    requires i < |z| && LexString(z, i).Ok?
    ensures var r := LexString(z, i);
      && ValidLit(r.value.0)
      && Spans(z, i, if r.value.1 then RenderString(r.value.0) else [QUOTE] + RenderLit(r.value.0), r.end)
  {
    var r := LexString(z, i);
    var l := r.value.0;
    LitSound(z, i + 1);
    var e := LexLit(z, i + 1).end;
    if r.value.1 {
      SpanJoin(z, i + 1, RenderLit(l), e, [QUOTE], e + 1);
      SpanJoin(z, i, [QUOTE], i + 1, RenderLit(l) + [QUOTE], e + 1);
    } else {
      SpanJoin(z, i, [QUOTE], i + 1, RenderLit(l), e);
    }
  }

  lemma ExpSound(z: CString, i: nat)
    requires i < |z|
    ensures var e := LexExp(z, i); Spans(z, i, RenderExp(e), i + |RenderExp(e)|)
  {
    hide Spans, Run, LexExp, RenderSign, IsCString;
    var e := LexExp(z, i);
    SpanSlice(z, i, i);
    if e.Exp? {
      var k := i + 1 + |RenderSign(e.sign)|;
      SignSound(z, i);
      SpanByte(z, i, e.mark);
      RunSound(z, k);
      SpanJoin3(z, i, [e.mark], i + 1, RenderSign(e.sign), k, e.digits, k + |e.digits|);
    }
  }

  lemma SignSound(z: CString, i: nat)
    requires i < |z| && LexExp(z, i).Exp?
    ensures var e, k := LexExp(z, i), i + 1 + |RenderSign(LexExp(z, i).sign)|;
      k < |z| && Spans(z, i + 1, RenderSign(e.sign), k) && e.digits == Run(z, k) && e.mark == z[i]
  {
    hide Run;
  }

  lemma RunSound(z: CString, i: nat)
    requires i < |z|
    ensures Spans(z, i, Run(z, i), i + |Run(z, i)|)
    ensures IsDigit(z[i]) ==> Run(z, i) != [] && Run(z, i)[0] == z[i]
  {
  }

  lemma WholeSound(z: CString, i: nat)
    requires i < |z|
    ensures var w := LexWhole(z, i); Spans(z, i, w, i + |w|) && (w != [] ==> w[0] != ZERO)
  {
    hide Spans, Run;
    RunSound(z, i);
    SpanSlice(z, i, i);
  }

  lemma FracSound(z: CString, i: nat)
    requires i < |z|
    ensures var f := LexFrac(z, i); Spans(z, i, RenderFrac(f), i + |RenderFrac(f)|)
  {
    hide Spans, Run;
    var f := LexFrac(z, i);
    SpanSlice(z, i, i);
    if f != [] {
      RunSound(z, i + 1);
      SpanByte(z, i, DOT);
      SpanJoin(z, i, [DOT], i + 1, f, i + 1 + |f|);
    }
  }

  lemma NumeralSound(z: CString, i: nat)
    requires i < |z| && StartsNumeral(z[i])
    ensures var r := LexNumeral(z, i); ValidNumeral(r.num) && Spans(z, i, RenderNumeral(r.num), r.end)
  {
    hide Spans, Run, LexFrac, LexExp, RenderFrac, RenderExp;
    var r := LexNumeral(z, i);
    var n := r.num;
    var p := if n.neg then i + 1 else i;
    var q := if n.zero then p + 1 else p;
    var f := q + |n.whole|;
    var s := f + |RenderFrac(n.frac)|;
    var sign, zero := if n.neg then [MINUS] else [], if n.zero then [ZERO] else [];
    SpanSlice(z, i, p);
    SpanSlice(z, p, q);
    assert z[i..p] == sign && z[p..q] == zero;
    WholeSound(z, q);
    FracSound(z, f);
    ExpSound(z, s);
    ExpMark(z, s);
    if !n.neg && !n.zero {
      RunSound(z, q);
    }
    var tail := RenderFrac(n.frac) + RenderExp(n.exp);
    SpanJoin(z, f, RenderFrac(n.frac), s, RenderExp(n.exp), r.end);
    SpanJoin4(z, i, sign, p, zero, q, n.whole, f, tail, r.end);
  }

  lemma ExpMark(z: CString, i: nat)
    requires i < |z|
    ensures var e := LexExp(z, i); e.Exp? ==> e.mark == LOWER_E || e.mark == UPPER_E
  {
  }

  lemma WordSound(z: CString, i: nat, w: bytes)
    ensures StartsWith(z, i, w) ==> Spans(z, i, w, i + |w|)
  {
  }

  lemma EmptySound(z: CString, i: nat, open: byte, g: bytes, close: byte, end: nat)
    requires i + 1 < end <= |z| && z[i] == open && z[i + 1..end - 1] == g && z[end - 1] == close
    ensures Spans(z, i, [open] + (g + [close]), end)
  {
    SpanJoin(z, i + 1, g, end - 1, [close], end);
    SpanJoin(z, i, [open], i + 1, g + [close], end);
  }

  lemma ScalarSound(z: CString, i: nat)
    requires i < |z| && ParseScalar(z, i).Ok?
    ensures var r := ParseScalar(z, i);
      && Valid(r.value, Skipped)
      && Spans(z, i, Render(r.value), r.end)
      && (r.value.COpenString? ==> z[r.end] == 0)
  {
    hide LexString, LexNumeral, RenderString, RenderNumeral, Spans, IsCString;
    var r := ParseScalar(z, i);
    match r.value
    case CNull | CFalse | CTrue => WordSound(z, i, Render(r.value));
    case CNumber(_) => NumeralSound(z, i);
    case CString(_) | COpenString(_) => StringSound(z, i);
  }

  /** What the parser accepts is the text of the tree it returns. */
  lemma {:induction false} ValueSound(z: CString, i: nat)
    requires i < |z| && ParseValue(z, i).Ok?
    ensures var r := ParseValue(z, i);
      && Valid(r.value, Skipped)
      && Spans(z, i, Render(r.value), r.end)
      && (r.value.COpenString? ==> z[r.end] == 0)
    decreases |z| - i, 0
  {
    hide ParseScalar, Skip, ParseElems, ParseMembers, Spans, IsCString, AllSkipped;
    var r := ParseValue(z, i);
    SpanByte(z, i, z[i]);
    if z[i] == LBRACKET || z[i] == LBRACE {
      SkipSound(z, i + 1);
      match r.value
      case CNoElems(g) => EmptySound(z, i, LBRACKET, g, RBRACKET, r.end);
      case CNoMembers(g) => EmptySound(z, i, LBRACE, g, RBRACE, r.end);
      case CArray(es) =>
        ElemsSound(z, i + 1);
        SpanJoin(z, i, [LBRACKET], i + 1, RenderElems(es), r.end);
      case CObject(ms) =>
        MembersSound(z, i + 1);
        SpanJoin(z, i, [LBRACE], i + 1, RenderMembers(ms), r.end);
    } else {
      ScalarSound(z, i);
    }
  }

  lemma {:induction false} ElemsSound(z: CString, i: nat)
    requires i < |z| && ParseElems(z, i).Ok?
    ensures var r := ParseElems(z, i); ValidElems(r.value, Skipped) && Spans(z, i, RenderElems(r.value), r.end)
    decreases |z| - i, 1
  {
    hide Spans, Skip, ParseValue, Render, AllSkipped, IsCString;
    var r := ParseElems(z, i);
    var b := Skip(z, i);
    var e := ParseValue(z, b).end;
    var a := Skip(z, e);
    SkipSound(z, i);
    ValueSound(z, b);
    SkipSound(z, e);
    if r.value.MoreElems? {
      ElemsSound(z, a + 1);
    }
    SpanSlice(z, i, b);
    SpanSlice(z, e, a);
    ElemsJoin(z, i, b, e, a, r.value, r.end);
  }

  lemma ElemsJoin(z: CString, i: nat, b: nat, e: nat, a: nat, es: Elems, end: nat)
    requires Spans(z, i, es.before, b) && Spans(z, b, Render(es.value), e) && Spans(z, e, es.after, a) && a < |z|
    requires if es.MoreElems? then z[a] == COMMA && Spans(z, a + 1, RenderElems(es.rest), end)
             else z[a] == RBRACKET && end == a + 1
    ensures Spans(z, i, RenderElems(es), end)
  {
    hide Spans, IsCString, Render;
    var tail := if es.MoreElems? then [COMMA] + RenderElems(es.rest) else [RBRACKET];
    SpanByte(z, a, z[a]);
    if es.MoreElems? {
      SpanJoin(z, a, [COMMA], a + 1, RenderElems(es.rest), end);
    }
    SpanJoin4(z, i, es.before, b, Render(es.value), e, es.after, a, tail, end);
  }

  lemma NameSound(z: CString, i: nat)
    requires i < |z| && ParseName(z, i).Ok?
    ensures var r := ParseName(z, i); ValidName(r.value, Skipped) && Spans(z, i, RenderName(r.value), r.end)
  {
    hide Spans, Skip, LexString, RenderString, RenderName, AllSkipped, IsCString;
    var r := ParseName(z, i);
    var b := Skip(z, i);
    var k := LexString(z, b).end;
    var m := Skip(z, k);
    SkipSound(z, i);
    StringSound(z, b);
    SkipSound(z, k);
    assert LexString(z, b).value.1;
    SkipSound(z, m + 1);
    SpanSlice(z, i, b);
    SpanSlice(z, k, m);
    SpanSlice(z, m + 1, r.end);
    NameJoin(z, i, b, k, m, r.value, r.end);
  }

  lemma NameJoin(z: CString, i: nat, b: nat, k: nat, m: nat, n: Name, end: nat)
    requires Spans(z, i, n.before, b) && Spans(z, b, RenderString(n.key), k) && Spans(z, k, n.middle, m)
    requires m < |z| && z[m] == COLON && Spans(z, m + 1, n.gap, end)
    ensures Spans(z, i, RenderName(n), end)
  {
    hide Spans, RenderString, IsCString;
    SpanByte(z, m, COLON);
    var colon := [COLON] + n.gap;
    SpanJoin(z, m, [COLON], m + 1, n.gap, end);
    SpanJoin4(z, i, n.before, b, RenderString(n.key), k, n.middle, m, colon, end);
  }

  lemma {:induction false} MembersSound(z: CString, i: nat)
    requires i < |z| && ParseMembers(z, i).Ok?
    ensures var r := ParseMembers(z, i); ValidMembers(r.value, Skipped) && Spans(z, i, RenderMembers(r.value), r.end)
    decreases |z| - i, 1
  {
    hide Spans, Skip, ParseName, ParseValue, RenderName, Render, AllSkipped, IsCString;
    var r := ParseMembers(z, i);
    var g := ParseName(z, i).end;
    var e := ParseValue(z, g).end;
    var a := Skip(z, e);
    NameSound(z, i);
    ValueSound(z, g);
    SkipSound(z, e);
    if r.value.MorePairs? {
      MembersSound(z, a + 1);
    }
    SpanSlice(z, e, a);
    MembersJoin(z, i, g, e, a, r.value, r.end);
  }

  lemma MembersJoin(z: CString, i: nat, g: nat, e: nat, a: nat, ms: Members, end: nat)
    requires Spans(z, i, RenderName(ms.name), g) && Spans(z, g, Render(ms.value), e) && Spans(z, e, ms.after, a)
    requires a < |z|
    requires if ms.MorePairs? then z[a] == COMMA && Spans(z, a + 1, RenderMembers(ms.rest), end)
             else z[a] == RBRACE && end == a + 1
    ensures Spans(z, i, RenderMembers(ms), end)
  {
    hide Spans, IsCString, RenderName, Render;
    var tail := if ms.MorePairs? then [COMMA] + RenderMembers(ms.rest) else [RBRACE];
    SpanByte(z, a, z[a]);
    if ms.MorePairs? {
      SpanJoin(z, a, [COMMA], a + 1, RenderMembers(ms.rest), end);
    }
    SpanJoin4(z, i, RenderName(ms.name), g, Render(ms.value), e, ms.after, a, tail, end);
  }

  /** A text accepted to its end is the text of the document returned. */
  lemma DocSound(z: CString)
    requires ParseDoc(z, true).Ok?
    ensures var d := ParseDoc(z, true).value; ValidDoc(d, Skipped) && z == RenderDoc(d) + [0]
  {
    hide Spans, Skip, ParseValue, Render, AllSkipped;
    var r := ParseDoc(z, true);
    var b := Skip(z, 0);
    var e := ParseValue(z, b).end;
    SkipSound(z, 0);
    ValueSound(z, b);
    SkipSound(z, e);
    SpanSlice(z, 0, b);
    SpanSlice(z, e, r.end);
    SpanJoin3(z, 0, r.value.before, b, Render(r.value.value), e, r.value.after, r.end);
    SpanWhole(z, RenderDoc(r.value));
  }

  lemma SpanWhole(z: CString, s: bytes)
    requires Spans(z, 0, s, |z| - 1)
    ensures z == s + [0]
  {
  }

  // ---------- Completeness ----------

  lemma {:induction false} SkipComplete(z: CString, i: nat, g: bytes, j: nat)
    requires Spans(z, i, g, j) && AllSkipped(g) && j < |z| && !IsSkipped(z[j])
    ensures Skip(z, i) == j
    decreases |g|
  {
    if g != [] {
      SpanTail(z, i, g, j);
      SkipComplete(z, i + 1, g[1..], j);
    }
  }

  lemma SpanTail(z: CString, i: nat, s: bytes, j: nat)
    requires Spans(z, i, s, j) && s != []
    ensures z[i] == s[0] && Spans(z, i + 1, s[1..], j)
  {
    assert s == [s[0]] + s[1..];
    SpanSplit(z, i, [s[0]], s[1..], j);
    SpanAt(z, i, s, j, 0);
  }

  lemma {:induction false} LitComplete(z: CString, i: nat, l: Lit, j: nat)
    requires ValidLit(l) && Spans(z, i, RenderLit(l), j) && j < |z| && (z[j] == QUOTE || z[j] == 0)
    ensures LexLit(z, i) == Literal(l, j)
    decreases l
  {
    hide Spans, IsCString;
    match l
    case End =>
      LitEnd(z, i, j);
    case Raw(b, r) =>
      SpanSplit(z, i, [b], RenderLit(r), j);
      SpanAt(z, i, [b], i + 1, 0);
      LitComplete(z, i + 1, r, j);
    case Esc(c, r) =>
      SpanSplit(z, i, [BACKSLASH, c], RenderLit(r), j);
      SpanAt(z, i, [BACKSLASH, c], i + 2, 0);
      SpanAt(z, i, [BACKSLASH, c], i + 2, 1);
      LitComplete(z, i + 2, r, j);
    case Uni(h1, h2, h3, h4, r) =>
      var u := [BACKSLASH, LOWER_U, h1, h2, h3, h4];
      SpanSplit(z, i, u, RenderLit(r), j);
      SpanAt(z, i, u, i + 6, 0);
      SpanAt(z, i, u, i + 6, 1);
      SpanAt(z, i, u, i + 6, 2);
      SpanAt(z, i, u, i + 6, 3);
      SpanAt(z, i, u, i + 6, 4);
      SpanAt(z, i, u, i + 6, 5);
      LitComplete(z, i + 6, r, j);
  }

  lemma LitEnd(z: CString, i: nat, j: nat)
    requires Spans(z, i, RenderLit(End), j) && j < |z| && (z[j] == QUOTE || z[j] == 0)
    ensures LexLit(z, i) == Literal(End, j)
  {
  }

  lemma StringComplete(z: CString, i: nat, l: Lit, j: nat)
    requires ValidLit(l) && Spans(z, i, RenderString(l), j) && j < |z|
    ensures LexString(z, i) == Ok((l, true), j)
  {
    hide Spans, LexLit;
    SpanSplit(z, i, [QUOTE], RenderLit(l) + [QUOTE], j);
    SpanAt(z, i, [QUOTE], i + 1, 0);
    SpanSplit(z, i + 1, RenderLit(l), [QUOTE], j);
    SpanEnd(z, i + 1, RenderLit(l), j - 1, [QUOTE], j);
    LitComplete(z, i + 1, l, j - 1);
  }

  lemma SpanEnd(z: CString, i: nat, s: bytes, e: nat, t: bytes, j: nat)
    requires Spans(z, i + |s|, t, j) && |t| == 1 && e == j - 1
    ensures e == i + |s| && z[e] == t[0]
  {
    SpanAt(z, i + |s|, t, j, 0);
  }

  /** Bytes that cannot carry a numeral on. */
  predicate EndsNumeral(b: byte) {
    !IsDigit(b) && b != DOT && b != LOWER_E && b != UPPER_E && b != PLUS && b != MINUS
  }

  lemma {:induction false} RunComplete(z: CString, i: nat, ds: Digits, j: nat)
    requires Spans(z, i, ds, j) && j < |z| && !IsDigit(z[j])
    ensures Run(z, i) == ds
  {
    RunEndComplete(z, i, ds, j);
  }

  lemma {:induction false} RunEndComplete(z: CString, i: nat, ds: Digits, j: nat)
    requires Spans(z, i, ds, j) && j < |z| && !IsDigit(z[j])
    ensures RunEnd(z, i) == j
    decreases |ds|
  {
    if ds != [] {
      SpanTail(z, i, ds, j);
      RunEndComplete(z, i + 1, ds[1..], j);
    }
  }

  lemma ExpComplete(z: CString, i: nat, e: Exponent, j: nat)
    requires e.Exp? ==> e.mark == LOWER_E || e.mark == UPPER_E
    requires Spans(z, i, RenderExp(e), j) && j < |z| && EndsNumeral(z[j])
    ensures LexExp(z, i) == e
    ensures z[i] != DOT && !IsDigit(z[i])
  {
    hide Run, IsCString, LexExp, Spans;
    SpanFits(z, i, RenderExp(e), j);
    if e.Exp? {
      var _, k := SpanSplit3(z, i, [e.mark], RenderSign(e.sign), e.digits, j);
      SpanAt(z, i, [e.mark], i + 1, 0);
      RunComplete(z, k, e.digits, j);
      if e.sign.NoSign? {
        if e.digits != [] {
          SpanAt(z, k, e.digits, j, 0);
        }
      } else {
        SpanAt(z, i + 1, RenderSign(e.sign), k, 0);
      }
      ExpStep(z, i, e, k);
    } else {
      NoExpStep(z, i);
    }
  }

  lemma ExpStep(z: CString, i: nat, e: Exponent, k: nat)
    requires i < k < |z| && e.Exp? && z[i] == e.mark && (e.mark == LOWER_E || e.mark == UPPER_E)
    requires k == i + 1 + |RenderSign(e.sign)| && Run(z, k) == e.digits
    requires match e.sign case NoSign => z[i + 1] != PLUS && z[i + 1] != MINUS
                          case PlusSign => z[i + 1] == PLUS
                          case MinusSign => z[i + 1] == MINUS
    ensures LexExp(z, i) == e
  {
    hide Run, IsCString;
  }

  lemma NoExpStep(z: CString, i: nat)
    requires i < |z| && z[i] != LOWER_E && z[i] != UPPER_E
    ensures LexExp(z, i) == NoExp
  {
  }

  lemma FracComplete(z: CString, i: nat, f: Digits, j: nat)
    requires Spans(z, i, RenderFrac(f), j) && j < |z| && z[j] != DOT && !IsDigit(z[j])
    ensures LexFrac(z, i) == f && !IsDigit(z[i])
  {
    if f != [] {
      SpanSplit(z, i, [DOT], f, j);
      SpanAt(z, i, [DOT], i + 1, 0);
      SpanAt(z, i + 1, f, j, 0);
      RunComplete(z, i + 1, f, j);
    }
  }

  lemma WholeComplete(z: CString, i: nat, w: Digits, j: nat)
    requires Spans(z, i, w, j) && j < |z| && !IsDigit(z[j]) && (w != [] ==> w[0] != ZERO)
    ensures LexWhole(z, i) == w && z[i] != ZERO && (w == [] ==> i == j) && (w != [] ==> IsDigit(z[i]))
  {
    if w != [] {
      SpanAt(z, i, w, j, 0);
      RunComplete(z, i, w, j);
    }
  }

  lemma NumeralComplete(z: CString, i: nat, n: Numeral, j: nat)
    requires ValidNumeral(n) && Spans(z, i, RenderNumeral(n), j) && j < |z| && EndsNumeral(z[j])
    ensures StartsNumeral(z[i]) && LexNumeral(z, i) == NumResult(n, j)
  {
    hide Spans, IsCString, LexWhole, LexFrac, LexExp, LexNumeral, RenderFrac, RenderExp, EndsNumeral;
    var sign, zero := if n.neg then [MINUS] else [], if n.zero then [ZERO] else [];
    var tail := RenderFrac(n.frac) + RenderExp(n.exp);
    var p, q, f := SpanSplit4(z, i, sign, zero, n.whole, tail, j);
    var s := f + |RenderFrac(n.frac)|;
    SpanSplit(z, f, RenderFrac(n.frac), RenderExp(n.exp), j);
    SpanFits(z, s, RenderExp(n.exp), j);
    ExpComplete(z, s, n.exp, j);
    FracComplete(z, f, n.frac, s);
    WholeComplete(z, q, n.whole, f);
    if n.zero {
      SpanAt(z, p, zero, q, 0);
    }
    if n.neg {
      SpanAt(z, i, sign, p, 0);
    }
    NumeralStep(z, i, n, p, q, f, s, j);
  }

  lemma SpanFits(z: CString, i: nat, s: bytes, j: nat)
    requires Spans(z, i, s, j)
    ensures i + |s| == j <= |z|
  {
  }

  lemma NumeralStep(z: CString, i: nat, n: Numeral, p: nat, q: nat, f: nat, s: nat, j: nat)
    requires i <= p <= q <= f <= s <= j < |z| && ValidNumeral(n)
    requires if n.neg then p == i + 1 && z[i] == MINUS else p == i
    requires if n.zero then q == p + 1 && z[p] == ZERO else q == p
    requires LexWhole(z, q) == n.whole && f == q + |n.whole| && z[q] != ZERO
    requires n.whole != [] ==> IsDigit(z[q])
    requires !n.zero && n.whole == [] ==> n.neg
    requires LexFrac(z, f) == n.frac && s == f + |RenderFrac(n.frac)|
    requires LexExp(z, s) == n.exp && j == s + |RenderExp(n.exp)|
    ensures StartsNumeral(z[i]) && LexNumeral(z, i) == NumResult(n, j)
  {
    hide IsCString, LexWhole, LexFrac, LexExp, RenderFrac, RenderExp;
  }

  /** What may stand right after a value: numerals and unclosed strings need a stop. */
  predicate CanFollow(c: Cst, b: byte) {
    (c.CNumber? ==> EndsNumeral(b)) && (c.COpenString? ==> b == 0)
  }

  lemma WordFirst(z: CString, i: nat, w: bytes)
    requires w != []
    ensures StartsWith(z, i, w) ==> z[i] == w[0]
  {
    if StartsWith(z, i, w) {
      SpanAt(z, i, w, i + |w|, 0);
    }
  }

  lemma WordsFirst(z: CString, i: nat)
    ensures StartsWith(z, i, NULL_WORD) ==> z[i] == LOWER_N
    ensures StartsWith(z, i, FALSE_WORD) ==> z[i] == LOWER_F
    ensures StartsWith(z, i, TRUE_WORD) ==> z[i] == LOWER_T
  {
    WordFirst(z, i, NULL_WORD);
    WordFirst(z, i, FALSE_WORD);
    WordFirst(z, i, TRUE_WORD);
  }

  lemma ScalarComplete(z: CString, i: nat, c: Cst, j: nat)
    requires !c.CArray? && !c.CNoElems? && !c.CObject? && !c.CNoMembers?
    requires Valid(c, Skipped) && Spans(z, i, Render(c), j) && j < |z| && CanFollow(c, z[j])
    ensures ParseScalar(z, i) == Ok(c, j)
  {
    hide LexString, LexNumeral, RenderString, RenderNumeral, Spans, IsCString, StartsWith;
    SpanFits(z, i, Render(c), j);
    WordsFirst(z, i);
    match c
    case CNull | CFalse | CTrue => WordComplete(z, i, Render(c), j);
    case CString(l) => StringComplete(z, i, l, j);
    case COpenString(l) => OpenComplete(z, i, l, j);
    case CNumber(n) => NumeralComplete(z, i, n, j);
  }

  lemma WordComplete(z: CString, i: nat, w: bytes, j: nat)
    requires Spans(z, i, w, j) && j < |z|
    ensures StartsWith(z, i, w)
  {
  }

  lemma OpenComplete(z: CString, i: nat, l: Lit, j: nat)
    requires ValidLit(l) && Spans(z, i, [QUOTE] + RenderLit(l), j) && j < |z| && z[j] == 0
    ensures LexString(z, i) == Ok((l, false), j)
  {
    hide Spans, LexLit;
    SpanSplit(z, i, [QUOTE], RenderLit(l), j);
    SpanAt(z, i, [QUOTE], i + 1, 0);
    LitComplete(z, i + 1, l, j);
  }

  /** A value starts with a byte of its own: not white space, not a closing bracket. */
  lemma FirstByte(z: CString, i: nat, c: Cst, j: nat)
    requires Valid(c, Skipped) && Spans(z, i, Render(c), j)
    ensures i < j <= |z| && !IsSkipped(z[i]) && z[i] != RBRACKET
    ensures (c.CArray? || c.CNoElems?) <==> z[i] == LBRACKET
    ensures (c.CObject? || c.CNoMembers?) <==> z[i] == LBRACE
  {
    hide Spans, RenderLit, RenderElems, RenderMembers;
    SpanFits(z, i, Render(c), j);
    assert Render(c) != [] by {
      if c.CNumber? {
        NumeralFirst(c.num);
      }
    }
    SpanAt(z, i, Render(c), j, 0);
    if c.CNumber? {
      NumeralFirst(c.num);
    }
  }

  lemma NumeralFirst(n: Numeral)
    requires ValidNumeral(n)
    ensures RenderNumeral(n) != [] && StartsNumeral(RenderNumeral(n)[0])
  {
    if !n.neg && !n.zero {
      assert RenderNumeral(n)[0] == n.whole[0];
    }
  }

  /** Every syntax tree is found back from its text. */
  lemma {:induction false} ValueComplete(z: CString, i: nat, c: Cst, j: nat)
    requires Valid(c, Skipped) && Spans(z, i, Render(c), j) && j < |z| && CanFollow(c, z[j])
    ensures ParseValue(z, i) == Ok(c, j)
    decreases c
  {
    hide Spans, ParseScalar, Skip, AllSkipped, IsCString, ParseElems, ParseMembers;
    FirstByte(z, i, c, j);
    match c
    case CNoElems(g) =>
      EmptyComplete(z, i, LBRACKET, g, RBRACKET, j);
    case CNoMembers(g) =>
      EmptyComplete(z, i, LBRACE, g, RBRACE, j);
    case CArray(es) =>
      SpanSplit(z, i, [LBRACKET], RenderElems(es), j);
      ElemsComplete(z, i + 1, es, j);
      ElemsFirst(z, i + 1);
    case CObject(ms) =>
      SpanSplit(z, i, [LBRACE], RenderMembers(ms), j);
      MembersComplete(z, i + 1, ms, j);
      MembersFirst(z, i + 1);
    case _ =>
      ScalarComplete(z, i, c, j);
  }

  lemma EmptyComplete(z: CString, i: nat, open: byte, g: bytes, close: byte, j: nat)
    requires Spans(z, i, [open] + (g + [close]), j) && j < |z| && AllSkipped(g) && !IsSkipped(close)
    ensures Skip(z, i + 1) == j - 1 && z[j - 1] == close && z[i + 1..j - 1] == g
  {
    hide Skip, IsCString;
    SpanSplit(z, i, [open], g + [close], j);
    SpanSplit(z, i + 1, g, [close], j);
    SpanAt(z, j - 1, [close], j, 0);
    SkipComplete(z, i + 1, g, j - 1);
  }

  /** An accepted element list does not start with the closing bracket. */
  lemma ElemsFirst(z: CString, i: nat)
    requires i < |z| && ParseElems(z, i).Ok?
    ensures z[Skip(z, i)] != RBRACKET
  {
    ElemsValue(z, i);
    ValueFirst(z, Skip(z, i));
  }

  lemma ValueFirst(z: CString, i: nat)
    requires i < |z| && ParseValue(z, i).Ok?
    ensures z[i] != RBRACKET
  {
    hide StartsWith, LexString, IsCString;
    WordsFirst(z, i);
  }

  lemma ElemsValue(z: CString, i: nat)
    requires i < |z| && ParseElems(z, i).Ok?
    ensures ParseValue(z, Skip(z, i)).Ok?
  {
    hide Skip, ParseValue;
  }

  lemma MembersFirst(z: CString, i: nat)
    requires i < |z| && ParseMembers(z, i).Ok?
    ensures z[Skip(z, i)] != RBRACE
  {
    hide Skip, ParseValue;
  }

  /** A gap before a comma, a closing bracket or the end of the text stops a numeral. */
  lemma GapStops(z: CString, e: nat, g: bytes, a: nat)
    requires Spans(z, e, g, a) && AllSkipped(g) && a < |z|
    requires z[a] == COMMA || z[a] == RBRACKET || z[a] == RBRACE || z[a] == 0
    ensures EndsNumeral(z[e]) && Skip(z, e) == a
  {
    SkipComplete(z, e, g, a);
    if g != [] {
      SpanAt(z, e, g, a, 0);
    }
  }

  lemma {:induction false} ElemsComplete(z: CString, i: nat, es: Elems, j: nat)
    requires ValidElems(es, Skipped) && Spans(z, i, RenderElems(es), j) && j < |z|
    ensures ParseElems(z, i) == Ok(es, j)
    decreases es
  {
    hide Spans, Skip, AllSkipped, IsCString, ParseValue, ParseElems, Render, RenderElems, Valid, EndsNumeral;
    var b, e, a := ElemsSplit(z, i, es, j);
    if es.MoreElems? {
      ElemsComplete(z, a + 1, es.rest, j);
    }
    FirstByte(z, b, es.value, e);
    SkipComplete(z, i, es.before, b);
    GapStops(z, e, es.after, a);
    ValueComplete(z, b, es.value, e);
    SpanSlices(z, i, es.before, b, e, es.after, a);
    ElemsRead(z, i, es, b, e, a, j);
  }

  lemma ElemsRead(z: CString, i: nat, es: Elems, b: nat, e: nat, a: nat, j: nat)
    requires i <= b < e <= a < |z| && Skip(z, i) == b && Skip(z, e) == a
    requires z[i..b] == es.before && ParseValue(z, b) == Ok(es.value, e) && z[e..a] == es.after
    requires if es.MoreElems? then z[a] == COMMA && a + 1 < |z| && ParseElems(z, a + 1) == Ok(es.rest, j)
             else z[a] == RBRACKET && j == a + 1
    ensures ParseElems(z, i) == Ok(es, j)
  {
    hide Skip, ParseValue, IsCString;
  }

  lemma ElemsSplit(z: CString, i: nat, es: Elems, j: nat) returns (b: nat, e: nat, a: nat)
    requires Spans(z, i, RenderElems(es), j)
    ensures Spans(z, i, es.before, b) && Spans(z, b, Render(es.value), e) && Spans(z, e, es.after, a)
    ensures a < j <= |z|
    ensures if es.MoreElems? then z[a] == COMMA && Spans(z, a + 1, RenderElems(es.rest), j)
            else z[a] == RBRACKET && j == a + 1
  {
    hide Spans, IsCString, Render;
    var tail := if es.MoreElems? then [COMMA] + RenderElems(es.rest) else [RBRACKET];
    b, e, a := SpanSplit4(z, i, es.before, Render(es.value), es.after, tail, j);
    SpanAt(z, a, tail, j, 0);
    if es.MoreElems? {
      SpanSplit(z, a, [COMMA], RenderElems(es.rest), j);
    }
  }

  lemma SpanSlices(z: CString, i: nat, g: bytes, b: nat, e: nat, h: bytes, a: nat)
    requires Spans(z, i, g, b) && Spans(z, e, h, a)
    ensures z[i..b] == g && z[e..a] == h
  {
  }

  lemma NameComplete(z: CString, i: nat, n: Name, j: nat)
    requires ValidName(n, Skipped) && Spans(z, i, RenderName(n), j) && j < |z| && !IsSkipped(z[j])
    ensures ParseName(z, i) == Ok(n, j)
  {
    hide Spans, Skip, AllSkipped, IsCString, LexString, RenderString, RenderName;
    var b, k, m := NameSplit(z, i, n, j);
    StringComplete(z, b, n.key, k);
    StringFirst(z, b);
    SkipComplete(z, i, n.before, b);
    SkipComplete(z, k, n.middle, m);
    SkipComplete(z, m + 1, n.gap, j);
    SpanSlices(z, i, n.before, b, k, n.middle, m);
    SpanSlices(z, i, n.before, b, m + 1, n.gap, j);
  }

  lemma NameSplit(z: CString, i: nat, n: Name, j: nat) returns (b: nat, k: nat, m: nat)
    requires Spans(z, i, RenderName(n), j)
    ensures Spans(z, i, n.before, b) && Spans(z, b, RenderString(n.key), k) && Spans(z, k, n.middle, m)
    ensures b < k <= m < j <= |z| && z[m] == COLON && Spans(z, m + 1, n.gap, j)
  {
    hide Spans, IsCString;
    var colon := [COLON] + n.gap;
    b, k, m := SpanSplit4(z, i, n.before, RenderString(n.key), n.middle, colon, j);
    SpanAt(z, m, colon, j, 0);
    SpanSplit(z, m, [COLON], n.gap, j);
  }

  lemma StringFirst(z: CString, b: nat)
    requires b < |z| && LexString(z, b).Ok?
    ensures z[b] == QUOTE
  {
  }

  lemma {:induction false} MembersComplete(z: CString, i: nat, ms: Members, j: nat)
    requires ValidMembers(ms, Skipped) && Spans(z, i, RenderMembers(ms), j) && j < |z|
    ensures ParseMembers(z, i) == Ok(ms, j)
    decreases ms
  {
    hide Spans, Skip, AllSkipped, IsCString, ParseName, ParseValue, RenderName, Render, EndsNumeral, ValidName;
    var g, e, a := MembersSplit(z, i, ms, j);
    if ms.MorePairs? {
      MembersComplete(z, a + 1, ms.rest, j);
    }
    FirstByte(z, g, ms.value, e);
    NameComplete(z, i, ms.name, g);
    GapStops(z, e, ms.after, a);
    ValueComplete(z, g, ms.value, e);
    SpanSlices(z, e, ms.after, a, e, ms.after, a);
  }

  lemma MembersSplit(z: CString, i: nat, ms: Members, j: nat) returns (g: nat, e: nat, a: nat)
    requires Spans(z, i, RenderMembers(ms), j)
    ensures Spans(z, i, RenderName(ms.name), g) && Spans(z, g, Render(ms.value), e) && Spans(z, e, ms.after, a)
    ensures a < j <= |z|
    ensures if ms.MorePairs? then z[a] == COMMA && Spans(z, a + 1, RenderMembers(ms.rest), j)
            else z[a] == RBRACE && j == a + 1
  {
    hide Spans, IsCString, RenderName, Render;
    var tail := if ms.MorePairs? then [COMMA] + RenderMembers(ms.rest) else [RBRACE];
    g, e, a := SpanSplit4(z, i, RenderName(ms.name), Render(ms.value), ms.after, tail, j);
    SpanAt(z, a, tail, j, 0);
    if ms.MorePairs? {
      SpanSplit(z, a, [COMMA], RenderMembers(ms.rest), j);
    }
  }

  // ---------- Whole texts ----------

  lemma {:induction false} LitNulFree(l: Lit)
    requires ValidLit(l)
    ensures NulFree(RenderLit(l))
  {
    if !l.End? {
      LitNulFree(l.rest);
    }
  }

  lemma GapNulFree(g: bytes, k: Gaps)
    requires GapIs(g, k)
    ensures NulFree(g)
  {
  }

  lemma JoinNulFree(a: bytes, b: bytes)
    requires NulFree(a) && NulFree(b)
    ensures NulFree(a + b)
  {
  }

  lemma NumeralNulFree(n: Numeral)
    requires ValidNumeral(n)
    ensures NulFree(RenderNumeral(n))
  {
    hide NulFree, RenderFrac, RenderExp;
    var sign, zero := if n.neg then [MINUS] else [], if n.zero then [ZERO] else [];
    FewNulFree(n);
    DigitsNulFree(n.whole);
    JoinNulFree(RenderFrac(n.frac), RenderExp(n.exp));
    JoinNulFree(n.whole, RenderFrac(n.frac) + RenderExp(n.exp));
    JoinNulFree(zero, n.whole + (RenderFrac(n.frac) + RenderExp(n.exp)));
    JoinNulFree(sign, zero + (n.whole + (RenderFrac(n.frac) + RenderExp(n.exp))));
  }

  lemma FewNulFree(n: Numeral)
    requires ValidNumeral(n)
    ensures NulFree(if n.neg then [MINUS] else []) && NulFree(if n.zero then [ZERO] else [])
    ensures NulFree(RenderFrac(n.frac)) && NulFree(RenderExp(n.exp))
  {
    DigitsNulFree(n.frac);
    if n.exp.Exp? {
      DigitsNulFree(n.exp.digits);
    }
  }

  lemma DigitsNulFree(ds: Digits)
    ensures NulFree(ds)
  {
    forall i | 0 <= i < |ds| ensures ds[i] != 0 {
      assert IsDigit(ds[i]);
    }
  }

  /** The text of a well-formed syntax tree is a C string. */
  lemma {:induction false} RenderNulFree(c: Cst, k: Gaps)
    requires Valid(c, k)
    ensures NulFree(Render(c))
  {
    hide RenderNumeral, RenderLit;
    match c
    case CNull | CFalse | CTrue =>
    case CNumber(n) => NumeralNulFree(n);
    case CString(_) | COpenString(_) => LitNulFree(c.lit);
    case CNoElems(_) | CNoMembers(_) => GapNulFree(c.gap, k);
    case CArray(es) => ElemsNulFree(es, k);
    case CObject(ms) => MembersNulFree(ms, k);
  }

  lemma {:induction false} ElemsNulFree(es: Elems, k: Gaps)
    requires ValidElems(es, k)
    ensures NulFree(RenderElems(es))
  {
    hide Render, GapIs;
    GapNulFree(es.before, k);
    RenderNulFree(es.value, k);
    GapNulFree(es.after, k);
    if es.MoreElems? {
      ElemsNulFree(es.rest, k);
    }
  }

  lemma {:induction false} MembersNulFree(ms: Members, k: Gaps)
    requires ValidMembers(ms, k)
    ensures NulFree(RenderMembers(ms))
  {
    hide Render, GapIs, RenderName;
    NameNulFree(ms.name, k);
    RenderNulFree(ms.value, k);
    GapNulFree(ms.after, k);
    if ms.MorePairs? {
      MembersNulFree(ms.rest, k);
    }
  }

  lemma NameNulFree(n: Name, k: Gaps)
    requires ValidName(n, k)
    ensures NulFree(RenderName(n))
  {
    hide GapIs, RenderLit;
    GapNulFree(n.before, k);
    LitNulFree(n.key);
    GapNulFree(n.middle, k);
    GapNulFree(n.gap, k);
  }

  lemma DocNulFree(d: Doc, k: Gaps)
    requires ValidDoc(d, k)
    ensures NulFree(RenderDoc(d))
  {
    hide Render, GapIs, IsCommentedEnd;
    GapNulFree(d.before, k);
    RenderNulFree(d.value, k);
    if !k.Commented? {
      GapNulFree(d.after, k);
    }
  }

  /** The text of a document is accepted and read back as that document. */
  lemma DocComplete(d: Doc)
    requires ValidDoc(d, Skipped)
    ensures NulFree(RenderDoc(d))
    ensures ParseDoc(Terminated(RenderDoc(d)), true) == Ok(d, |RenderDoc(d)|)
  {
    hide Spans, Skip, ParseValue, Render, AllSkipped, IsCString, EndsNumeral;
    DocNulFree(d, Skipped);
    var s := RenderDoc(d);
    var z := Terminated(s);
    var n := |s|;
    SpanPrefix(z, s);
    var b, e := SpanSplit3(z, 0, d.before, Render(d.value), d.after, n);
    FirstByte(z, b, d.value, e);
    SkipComplete(z, 0, d.before, b);
    GapStops(z, e, d.after, n);
    ValueComplete(z, b, d.value, e);
    SpanSlices(z, 0, d.before, b, e, d.after, n);
  }

  lemma SpanPrefix(z: CString, s: bytes)
    requires z == s + [0]
    ensures Spans(z, 0, s, |s|) && z[|s|] == 0
  {
  }

  /** The parser accepts a whole text, with a given syntax tree, exactly when the text is that tree's. */
  lemma AcceptsExactly(z: CString, d: Doc)
    ensures ParseDoc(z, true) == Ok(d, |z| - 1) <==> ValidDoc(d, Skipped) && z == RenderDoc(d) + [0]
  {
    hide ParseDoc, RenderDoc, ValidDoc;
    if ParseDoc(z, true).Ok? {
      DocSound(z);
    }
    if ValidDoc(d, Skipped) && z == RenderDoc(d) + [0] {
      DocComplete(d);
    }
  }
}
