/** Printed text is the text of a standard syntax tree that means the printed value, so parsing it
    gives the value back, in either format and at any depth. */
module PrintingTheorems {
  import opened Bytes
  import opened Values
  import opened Syntax
  import opened Parsing
  import opened ParsingTheorems
  import opened Printing

  // ---------- Strings ----------

  lemma PieceText(b: byte, l: Lit)
    ensures RenderLit(Piece(b, l)) == EscapeByte(b) + RenderLit(l)
  {
  }

  lemma {:induction false} EscapeCons(s: bytes)
    requires s != []
    ensures Escape(s) == EscapeByte(s[0]) + Escape(s[1..])
  {
    hide EscapeByte;
    if |s| > 1 {
      EscapeCons(s[..|s| - 1]);
      assert s[..|s| - 1][1..] == s[1..][..|s| - 2];
    } else {
      assert s[..0] == [] && s[1..] == [];
    }
  }

  lemma {:induction false} EscapeText(s: bytes)
    ensures Escape(s) == RenderLit(LitOf(s))
  {
    hide EscapeByte, Piece;
    if s != [] {
      EscapeCons(s);
      EscapeText(s[1..]);
      PieceText(s[0], LitOf(s[1..]));
    }
  }

  lemma StringText(s: bytes)
    ensures PrintString(s) == RenderString(LitOf(s))
  {
    EscapeText(s);
  }

  lemma PieceMeaning(b: byte, l: Lit)
    requires b != 0 && ValidLit(l)
    ensures ValidLit(Piece(b, l)) && Decoded(Piece(b, l)) == [b] + Decoded(l)
  {
    hide Decoded;
    if b < 32 {
      SmallUnit(b, l);
    }
    PlainMeaning(b, l);
  }

  lemma SmallUnit(b: byte, l: Lit)
    requires 0 < b < 32
    ensures Decoded(Uni(ZERO, ZERO, HexDigitOf(b / 16), HexDigitOf(b % 16), l)) == [b] + Decoded(l)
  {
    assert HexValue(ZERO) == 0;
    assert HexValue(HexDigitOf(b / 16)) == b / 16;
    assert HexValue(HexDigitOf(b % 16)) == b % 16;
    assert CodeUnit(ZERO, ZERO, HexDigitOf(b / 16), HexDigitOf(b % 16)) == b;
  }

  lemma PlainMeaning(b: byte, l: Lit)
    ensures Decoded(Raw(b, l)) == [b] + Decoded(l)
    ensures Decoded(Esc(b, l)) == [Unescaped(b)] + Decoded(l)
    ensures Decoded(Esc(LOWER_B, l)) == [BACKSPACE] + Decoded(l)
    ensures Decoded(Esc(LOWER_F, l)) == [FF] + Decoded(l)
    ensures Decoded(Esc(LOWER_N, l)) == [LF] + Decoded(l)
    ensures Decoded(Esc(LOWER_R, l)) == [CR] + Decoded(l)
    ensures Decoded(Esc(LOWER_T, l)) == [TAB] + Decoded(l)
  {
  }

  /** Escaping then unescaping is the identity on NUL-free strings. */
  lemma {:induction false} StringMeaning(s: bytes)
    requires NulFree(s)
    ensures ValidLit(LitOf(s)) && Decoded(LitOf(s)) == s
  {
    if s != [] {
      StringMeaning(s[1..]);
      PieceMeaning(s[0], LitOf(s[1..]));
      assert s == [s[0]] + s[1..];
    }
  }

  // ---------- Numbers ----------

  lemma {:induction false} DigitsValue(n: nat)
    ensures NatOf(DigitsOf(n)) == n
    ensures n > 0 ==> DigitsOf(n)[0] != ZERO
  {
    if n >= 10 {
      DigitsValue(n / 10);
      assert DigitsOf(n)[..|DigitsOf(n)| - 1] == DigitsOf(n / 10);
    }
  }

  lemma NumeralMeaning(n: int)
    ensures ValidNumeral(NumeralOf(n)) && NumeralValue(NumeralOf(n)) == n as real
    ensures RenderNumeral(NumeralOf(n)) == PrintInt(n)
  {
    hide NatOf, DigitsOf;
    var a: nat := if n < 0 then -n else n;
    var m := NumeralOf(n);
    DigitsValue(a);
    assert m.whole + m.frac == m.whole;
    assert (if n < 0 then -1.0 else 1.0) * (a as real) == n as real;
    assert RenderNumeral(m) == PrintInt(n) by { IntText(n); }
    assert NatOf(m.whole) == a by { NatOfNone(); }
    assert Pow10(ExpValue(m.exp) - |m.frac|) == 1.0;
  }

  lemma IntText(n: int)
    ensures RenderNumeral(NumeralOf(n)) == PrintInt(n)
  {
    var ds := DigitsOf(if n < 0 then -n else n);
    assert ds + ([] + []) == ds && [] + ds == ds;
    if n == 0 {
      assert [] + ([ZERO] + ([] + ([] + []))) == [ZERO];
    }
  }

  lemma NatOfNone()
    ensures NatOf([]) == 0
  {
  }

  // ---------- Text ----------

  /** The printed text is the text of the syntax tree. */
  lemma {:induction false} PrintText(v: Json, depth: nat, fmt: bool)
    requires Printable(v)
    ensures Print(v, depth, fmt) == Render(CstOf(v, depth, fmt))
    decreases v, 0, 0
  {
    hide PrintNumber, PrintString, RenderNumeral, RenderString, PrintItems, PrintMembers, RenderElems, RenderMembers,
      ElemsOf, MembersOf, Indent, NumeralOf, LitOf;
    match v
    case Null | False | True =>
    case Number(r) => NumberText(r);
    case Str(s) => StringText(s);
    case Array(items) =>
      if items == [] {
        ItemsNone(items, depth, fmt);
        assert [LBRACKET] + ([] + [RBRACKET]) == [LBRACKET] + [] + [RBRACKET];
      } else {
        ItemsText(items, depth, fmt, 0);
        ArrayText(PrintItems(items, depth, fmt, |items|), RenderElems(ElemsOf(items, depth, fmt, 0)));
      }
    case Object(ms) =>
      if ms == [] {
        assert [LBRACE] + (LineBreak(fmt) + Indent(depth - 1, fmt) + [RBRACE])
            == [LBRACE] + LineBreak(fmt) + Indent(depth - 1, fmt) + [RBRACE];
      } else {
        MembersText(ms, depth + 1, fmt, 0);
        ObjectText(LineBreak(fmt), PrintMembers(ms, depth + 1, fmt, |ms|), Indent(depth, fmt),
          RenderMembers(MembersOf(ms, depth + 1, fmt, 0)));
      }
  }

  lemma NumberText(r: real)
    requires IsInt32(r)
    ensures PrintNumber(r) == RenderNumeral(NumeralOf(r.Floor))
  {
    NumeralMeaning(r.Floor);
  }

  lemma ArrayText(a: bytes, r: bytes)
    requires a + [RBRACKET] == [] + r
    ensures [LBRACKET] + a + [RBRACKET] == [LBRACKET] + r
  {
    assert [LBRACKET] + a + [RBRACKET] == [LBRACKET] + (a + [RBRACKET]);
  }

  lemma ObjectText(b: bytes, a: bytes, c: bytes, r: bytes)
    requires b + a + c + [RBRACE] == [] + r
    ensures [LBRACE] + b + a + c + [RBRACE] == [LBRACE] + r
  {
    assert [LBRACE] + b + a + c + [RBRACE] == [LBRACE] + (b + a + c + [RBRACE]);
  }

  lemma Regroup(head: bytes, a: bytes, b: bytes, c: bytes, d: bytes)
    ensures head + (a + (b + (c + d))) == head + a + b + c + d
  {
  }

  /** The items before i with the comma after each, without the blank that follows the last comma. */
  function ItemsBefore(items: seq<Json>, depth: nat, fmt: bool, i: nat): bytes
    requires i <= |items| && Printable(Array(items))
  {
    if i == 0 then []
    else PrintItems(items, depth, fmt, i - 1) + Print(items[i - 1], depth + 1, fmt) + [COMMA]
  }

  lemma {:induction false} ItemsText(items: seq<Json>, depth: nat, fmt: bool, i: nat)
    requires i < |items| && Printable(Array(items))
    ensures PrintItems(items, depth, fmt, |items|) + [RBRACKET]
         == ItemsBefore(items, depth, fmt, i) + RenderElems(ElemsOf(items, depth, fmt, i))
    decreases items, 1, |items| - i
  {
    hide Print, Render, CstOf, RenderElems, PrintItems;
    PrintText(items[i], depth + 1, fmt);
    var head := ItemsBefore(items, depth, fmt, i);
    var es := ElemsOf(items, depth, fmt, i);
    var text := Print(items[i], depth + 1, fmt);
    ItemsGap(items, depth, fmt, i);
    ElemsText(es);
    ItemsLast(items, depth, fmt, i);
    if i + 1 < |items| {
      ItemsText(items, depth, fmt, i + 1);
      Regroup(head, es.before, text, [], [COMMA] + RenderElems(es.rest));
      assert head + es.before + text + [] + ([COMMA] + RenderElems(es.rest))
          == head + es.before + text + [COMMA] + RenderElems(es.rest);
    } else {
      Regroup(head, es.before, text, [], [RBRACKET]);
      assert head + es.before + text + [] == head + es.before + text;
    }
  }

  lemma ElemsText(es: Elems)
    ensures RenderElems(es) == es.before + (Render(es.value) + (es.after
      + (if es.MoreElems? then [COMMA] + RenderElems(es.rest) else [RBRACKET])))
  {
  }

  lemma ItemsGap(items: seq<Json>, depth: nat, fmt: bool, i: nat)
    requires i < |items| && Printable(Array(items))
    ensures ItemsBefore(items, depth, fmt, i) + ElemsOf(items, depth, fmt, i).before == PrintItems(items, depth, fmt, i)
  {
    hide Print, CstOf, PrintItems, ElemsOf;
    ElemsOfBefore(items, depth, fmt, i);
    if i > 0 {
      ItemsUnfold(items, depth, fmt, i);
      var x := PrintItems(items, depth, fmt, i - 1) + Print(items[i - 1], depth + 1, fmt);
      Separated(x);
    } else {
      ItemsNone(items, depth, fmt);
    }
  }

  lemma Separated(x: bytes)
    ensures x + [COMMA] + [SPACE] == x + [COMMA, SPACE]
    ensures x + [COMMA] + [] == x + [COMMA]
  {
  }

  lemma ElemsOfBefore(items: seq<Json>, depth: nat, fmt: bool, i: nat)
    requires i < |items| && Printable(Array(items))
    ensures ElemsOf(items, depth, fmt, i).before == if i > 0 && fmt then [SPACE] else []
  {
    hide CstOf;
  }

  lemma ItemsNone(items: seq<Json>, depth: nat, fmt: bool)
    requires Printable(Array(items))
    ensures PrintItems(items, depth, fmt, 0) == []
  {
  }

  lemma ItemsUnfold(items: seq<Json>, depth: nat, fmt: bool, n: nat)
    requires 0 < n <= |items| && Printable(Array(items))
    ensures PrintItems(items, depth, fmt, n)
         == PrintItems(items, depth, fmt, n - 1) + Print(items[n - 1], depth + 1, fmt)
          + (if n == |items| then [] else ElemSeparator(fmt))
  {
    hide Print;
  }

  lemma ItemsLast(items: seq<Json>, depth: nat, fmt: bool, i: nat)
    requires i < |items| && Printable(Array(items))
    ensures i + 1 == |items| ==>
      PrintItems(items, depth, fmt, |items|) == PrintItems(items, depth, fmt, i) + Print(items[i], depth + 1, fmt)
  {
    hide Print, PrintItems;
    if i + 1 == |items| {
      ItemsUnfold(items, depth, fmt, i + 1);
      var x := PrintItems(items, depth, fmt, i) + Print(items[i], depth + 1, fmt);
      assert x + [] == x;
    }
  }

  /** The members before i, from the first line break to the comma after the last of them. */
  function MembersBefore(ms: seq<Member>, depth: nat, fmt: bool, i: nat): bytes
    requires i <= |ms| && Printable(Object(ms))
  {
    if i == 0 then []
    else
      LineBreak(fmt) + PrintMembers(ms, depth, fmt, i - 1)
      + Indent(depth, fmt) + PrintString(ms[i - 1].name) + NameSeparator(fmt)
      + Print(ms[i - 1].value, depth, fmt) + [COMMA]
  }

  lemma {:induction false} MembersText(ms: seq<Member>, depth: nat, fmt: bool, i: nat)
    requires depth > 0 && i < |ms| && Printable(Object(ms))
    ensures LineBreak(fmt) + PrintMembers(ms, depth, fmt, |ms|) + Indent(depth - 1, fmt) + [RBRACE]
         == MembersBefore(ms, depth, fmt, i) + RenderMembers(MembersOf(ms, depth, fmt, i))
    decreases ms, 1, |ms| - i
  {
    hide Print, PrintString, Render, RenderString, CstOf, Indent, LitOf, RenderMembers, RenderName, PrintMembers,
      LineBreak, MembersBefore;
    PrintText(ms[i].value, depth, fmt);
    StringText(ms[i].name);
    var head, all := MembersBefore(ms, depth, fmt, i), MembersOf(ms, depth, fmt, i);
    var name, text := RenderName(all.name), Print(ms[i].value, depth, fmt);
    MembersGap(ms, depth, fmt, i);
    NameText(head, all.name, depth, fmt, ms[i].name);
    MembersTextStep(all);
    MembersLast(ms, depth, fmt, i);
    if i + 1 < |ms| {
      MembersText(ms, depth, fmt, i + 1);
      BeforeNext(ms, depth, fmt, i);
      Regroup(head, name, text, [], [COMMA] + RenderMembers(all.rest));
      assert head + name + text + [] + ([COMMA] + RenderMembers(all.rest))
          == head + name + text + [COMMA] + RenderMembers(all.rest);
    } else {
      var close := Indent(depth - 1, fmt);
      Regroup(head, name, text, LineBreak(fmt) + close, [RBRACE]);
      assert head + name + text + (LineBreak(fmt) + close) + [RBRACE]
          == head + name + text + LineBreak(fmt) + close + [RBRACE];
    }
  }

  lemma BeforeNext(ms: seq<Member>, depth: nat, fmt: bool, i: nat)
    requires i < |ms| && Printable(Object(ms))
    ensures MembersBefore(ms, depth, fmt, i + 1) ==
      LineBreak(fmt) + PrintMembers(ms, depth, fmt, i)
      + Indent(depth, fmt) + PrintString(ms[i].name) + NameSeparator(fmt) + Print(ms[i].value, depth, fmt) + [COMMA]
  {
    hide Print, PrintString, Indent, PrintMembers, LineBreak;
  }

  lemma MembersTextStep(ms: Members)
    ensures RenderMembers(ms) == RenderName(ms.name) + (Render(ms.value) + (ms.after
      + (if ms.MorePairs? then [COMMA] + RenderMembers(ms.rest) else [RBRACE])))
  {
  }

  lemma MembersGap(ms: seq<Member>, depth: nat, fmt: bool, i: nat)
    requires i < |ms| && Printable(Object(ms))
    ensures MembersBefore(ms, depth, fmt, i) + LineBreak(fmt) == LineBreak(fmt) + PrintMembers(ms, depth, fmt, i)
  {
    hide Print, PrintString, Indent, PrintMembers, LineBreak;
    var l := LineBreak(fmt);
    if i == 0 {
      MembersNone(ms, depth, fmt);
      assert l + [] == [] + l;
    } else {
      MembersUnfold(ms, depth, fmt, i);
      Shift(l, PrintMembers(ms, depth, fmt, i - 1), Indent(depth, fmt), PrintString(ms[i - 1].name),
        NameSeparator(fmt), Print(ms[i - 1].value, depth, fmt), [COMMA], l);
    }
  }

  lemma Shift(x: bytes, a: bytes, b: bytes, c: bytes, d: bytes, e: bytes, f: bytes, g: bytes)
    ensures x + a + b + c + d + e + f + g == x + (a + b + c + d + e + f + g)
  {
  }

  lemma MembersNone(ms: seq<Member>, depth: nat, fmt: bool)
    requires Printable(Object(ms))
    ensures PrintMembers(ms, depth, fmt, 0) == []
  {
  }

  lemma MembersUnfold(ms: seq<Member>, depth: nat, fmt: bool, n: nat)
    requires 0 < n <= |ms| && Printable(Object(ms))
    ensures PrintMembers(ms, depth, fmt, n)
         == PrintMembers(ms, depth, fmt, n - 1)
          + Indent(depth, fmt) + PrintString(ms[n - 1].name) + NameSeparator(fmt)
          + Print(ms[n - 1].value, depth, fmt)
          + (if n == |ms| then [] else [COMMA]) + LineBreak(fmt)
  {
    hide Print, PrintString, Indent;
  }

  lemma MembersLast(ms: seq<Member>, depth: nat, fmt: bool, i: nat)
    requires i < |ms| && Printable(Object(ms))
    ensures i + 1 == |ms| ==>
      LineBreak(fmt) + PrintMembers(ms, depth, fmt, |ms|) ==
      LineBreak(fmt) + PrintMembers(ms, depth, fmt, i) + Indent(depth, fmt) + PrintString(ms[i].name)
        + NameSeparator(fmt) + Print(ms[i].value, depth, fmt) + LineBreak(fmt)
  {
    hide Print, PrintString, Indent, PrintMembers, LineBreak;
    if i + 1 == |ms| {
      var l := LineBreak(fmt);
      MembersUnfold(ms, depth, fmt, i + 1);
      Shift(l, PrintMembers(ms, depth, fmt, i), Indent(depth, fmt), PrintString(ms[i].name),
        NameSeparator(fmt), Print(ms[i].value, depth, fmt), [], l);
      var x := l + PrintMembers(ms, depth, fmt, i) + Indent(depth, fmt) + PrintString(ms[i].name)
        + NameSeparator(fmt) + Print(ms[i].value, depth, fmt);
      assert x + [] == x;
    }
  }

  lemma NameText(head: bytes, n: Name, depth: nat, fmt: bool, s: bytes)
    requires n == Name(LineBreak(fmt) + Indent(depth, fmt), LitOf(s), [], if fmt then [TAB] else [])
    requires RenderString(LitOf(s)) == PrintString(s)
    ensures head + RenderName(n) == head + LineBreak(fmt) + Indent(depth, fmt) + PrintString(s) + NameSeparator(fmt)
  {
    hide Indent, PrintString, RenderString;
  }

  // ---------- Meaning ----------

  lemma IndentStandard(n: int, fmt: bool)
    ensures AllStandard(Indent(n, fmt)) && AllStandard(LineBreak(fmt) + Indent(n, fmt))
  {
  }

  /** The syntax tree of printed text is well formed, spaced by standard white space only, and means
      the printed value. */
  lemma {:induction false} PrintMeaning(v: Json, depth: nat, fmt: bool)
    requires Printable(v)
    ensures var c := CstOf(v, depth, fmt); Valid(c, Standard) && !c.COpenString? && Meaning(c) == v
    decreases v, 0, 0
  {
    hide NumeralValue, LitOf, Indent, LineBreak, ElemsOf, MembersOf, Items, Pairs, ValidElems, ValidMembers;
    match v
    case Null | False | True =>
    case Number(r) => NumeralMeaning(r.Floor);
    case Str(s) => StringMeaning(s);
    case Array(items) =>
      if items != [] {
        ItemsMeaning(items, depth, fmt, 0);
        ElemsMean(ElemsOf(items, depth, fmt, 0));
        assert items[0..] == items;
      }
    case Object(ms) =>
      if ms == [] {
        IndentStandard(depth - 1, fmt);
      } else {
        MembersMeaning(ms, depth + 1, fmt, 0);
        MembersMean(MembersOf(ms, depth + 1, fmt, 0));
        assert ms[0..] == ms;
      }
  }

  lemma ElemsMean(es: Elems)
    ensures Meaning(CArray(es)) == Array(Items(es)) && (ValidElems(es, Standard) ==> Valid(CArray(es), Standard))
  {
  }

  lemma MembersMean(ms: Members)
    ensures Meaning(CObject(ms)) == Object(Pairs(ms)) && (ValidMembers(ms, Standard) ==> Valid(CObject(ms), Standard))
  {
  }

  lemma {:induction false} ItemsMeaning(items: seq<Json>, depth: nat, fmt: bool, i: nat)
    requires i < |items| && Printable(Array(items))
    ensures var es := ElemsOf(items, depth, fmt, i); ValidElems(es, Standard) && Items(es) == items[i..]
    decreases items, 1, |items| - i
  {
    hide CstOf, Meaning, Valid;
    PrintMeaning(items[i], depth + 1, fmt);
    if i + 1 < |items| {
      ItemsMeaning(items, depth, fmt, i + 1);
    }
    assert items[i..] == [items[i]] + items[i + 1..];
  }

  lemma {:induction false} MembersMeaning(ms: seq<Member>, depth: nat, fmt: bool, i: nat)
    requires i < |ms| && Printable(Object(ms))
    ensures var all := MembersOf(ms, depth, fmt, i); ValidMembers(all, Standard) && Pairs(all) == ms[i..]
    decreases ms, 1, |ms| - i
  {
    hide CstOf, Meaning, Valid, LitOf, Decoded, Indent, LineBreak;
    PrintMeaning(ms[i].value, depth, fmt);
    StringMeaning(ms[i].name);
    IndentStandard(depth, fmt);
    IndentStandard(depth - 1, fmt);
    if i + 1 < |ms| {
      MembersMeaning(ms, depth, fmt, i + 1);
    }
    assert ms[i..] == [ms[i]] + ms[i + 1..];
  }

  // ---------- Round trip ----------

  lemma {:induction false} SkippedFromStandard(c: Cst)
    requires Valid(c, Standard)
    ensures Valid(c, Skipped)
  {
    match c
    case CArray(es) => ElemsFromStandard(es);
    case CObject(ms) => MembersFromStandard(ms);
    case _ =>
  }

  lemma {:induction false} ElemsFromStandard(es: Elems)
    requires ValidElems(es, Standard)
    ensures ValidElems(es, Skipped)
  {
    SkippedFromStandard(es.value);
    if es.MoreElems? {
      ElemsFromStandard(es.rest);
    }
  }

  lemma {:induction false} MembersFromStandard(ms: Members)
    requires ValidMembers(ms, Standard)
    ensures ValidMembers(ms, Skipped)
  {
    SkippedFromStandard(ms.value);
    if ms.MorePairs? {
      MembersFromStandard(ms.rest);
    }
  }

  /** Wherever printed text stands in a text, the parser reads the printed value there and stops
      right behind it; a number needs a byte behind it that does not carry it on. */
  lemma RoundTripAnywhere(z: CString, i: nat, v: Json, depth: nat, fmt: bool, j: nat)
    requires Printable(v) && Spans(z, i, Print(v, depth, fmt), j) && j < |z|
    requires v.Number? ==> EndsNumeral(z[j])
    ensures ParseValue(z, i) == Ok(CstOf(v, depth, fmt), j) && Meaning(CstOf(v, depth, fmt)) == v
  {
    hide ParseValue, Spans, Print, Render, Meaning, Valid, EndsNumeral;
    PrintText(v, depth, fmt);
    PrintMeaning(v, depth, fmt);
    SkippedFromStandard(CstOf(v, depth, fmt));
    ValueComplete(z, i, CstOf(v, depth, fmt), j);
  }

  /** String literals round-trip whatever follows them. */
  lemma StringRoundTrip(z: CString, i: nat, s: bytes, j: nat)
    requires NulFree(s) && Spans(z, i, PrintString(s), j) && j < |z|
    ensures LexString(z, i) == Ok((LitOf(s), true), j) && Decoded(LitOf(s)) == s
  {
    hide LexString, Spans, PrintString, RenderString, Decoded, LitOf;
    StringText(s);
    StringMeaning(s);
    StringComplete(z, i, LitOf(s), j);
  }

  lemma PrintNulFree(v: Json, depth: nat, fmt: bool)
    requires Printable(v)
    ensures NulFree(Print(v, depth, fmt))
  {
    PrintText(v, depth, fmt);
    PrintMeaning(v, depth, fmt);
    RenderNulFree(CstOf(v, depth, fmt), Standard);
  }

  /** Parsing the printed text of a value to its end gives the value back, in either format. */
  lemma RoundTrip(v: Json, depth: nat, fmt: bool)
    requires Printable(v)
    ensures NulFree(Print(v, depth, fmt))
    ensures var s, c := Print(v, depth, fmt), CstOf(v, depth, fmt);
      ParseDoc(Terminated(s), true) == Ok(Doc([], c, []), |s|) && Meaning(c) == v
  {
    hide ParseDoc, Print, Render, Meaning, Valid;
    PrintNulFree(v, depth, fmt);
    PrintText(v, depth, fmt);
    PrintMeaning(v, depth, fmt);
    var c := CstOf(v, depth, fmt);
    SkippedFromStandard(c);
    BareDoc(c);
    DocComplete(Doc([], c, []));
  }

  lemma BareDoc(c: Cst)
    ensures RenderDoc(Doc([], c, [])) == Render(c)
  {
    hide Render;
    assert [] + (Render(c) + []) == Render(c);
  }
}
