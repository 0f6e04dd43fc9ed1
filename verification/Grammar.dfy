/** JSON texts as sections 2, 6 and 7 of RFC 8259 define them, byte for byte (bytes from 0x80 on are parts of
    unescaped characters), and how the parser's own grammar differs. */
module Grammar {
  import opened Bytes
  import opened Values
  import opened Syntax
  import opened Parsing
  import opened ParsingTheorems
  import opened Printing
  import opened PrintingTheorems
  import M = Minifying
  import opened MinifyingTheorems

  /** unescaped / escape ( one of eight characters / u and four hexadecimal digits ). */
  predicate StrictLit(l: Lit) {
    match l
    case End => true
    case Raw(b, r) => b >= 0x20 && b != QUOTE && b != BACKSLASH && StrictLit(r)
    case Esc(c, r) => IsEscaped(c) && StrictLit(r)
    case Uni(_, _, _, _, r) => StrictLit(r)
  }

  predicate IsEscaped(c: byte) {
    c in [QUOTE, BACKSLASH, SLASH, LOWER_B, LOWER_F, LOWER_N, LOWER_R, LOWER_T]
  }

  /** [ minus ] int [ frac ] [ exp ]: the integer part is a zero, or digits that do not start with one. */
  predicate StrictNumeral(n: Numeral) {
    && (n.zero <==> n.whole == [])
    && (n.whole != [] ==> n.whole[0] != ZERO)
    && (n.exp.Exp? ==> (n.exp.mark == LOWER_E || n.exp.mark == UPPER_E) && n.exp.digits != [])
  }

  predicate Strict(c: Cst) {
    match c
    case CNull | CFalse | CTrue => true
    case CNumber(n) => StrictNumeral(n)
    case CString(l) => StrictLit(l)
    case COpenString(_) => false
    case CNoElems(g) => AllStandard(g)
    case CArray(es) => StrictElems(es)
    case CNoMembers(g) => AllStandard(g)
    case CObject(ms) => StrictMembers(ms)
  }

  predicate StrictElems(es: Elems) {
    AllStandard(es.before) && Strict(es.value) && AllStandard(es.after) && (es.MoreElems? ==> StrictElems(es.rest))
  }

  predicate StrictName(n: Name) {
    AllStandard(n.before) && StrictLit(n.key) && AllStandard(n.middle) && AllStandard(n.gap)
  }

  predicate StrictMembers(ms: Members) {
    StrictName(ms.name) && Strict(ms.value) && AllStandard(ms.after) && (ms.MorePairs? ==> StrictMembers(ms.rest))
  }

  /** JSON-text = ws value ws. */
  predicate StrictDoc(d: Doc) {
    AllStandard(d.before) && Strict(d.value) && AllStandard(d.after)
  }

  ghost predicate Conforms(s: bytes) {
    exists d :: StrictDoc(d) && s == RenderDoc(d)
  }

  // ---------- Every conforming text is accepted ----------

  lemma {:induction false} StrictLitValid(l: Lit)
    requires StrictLit(l)
    ensures ValidLit(l)
  {
    match l
    case End =>
    case Raw(_, r) => StrictLitValid(r);
    case Esc(_, r) => StrictLitValid(r);
    case Uni(_, _, _, _, r) => StrictLitValid(r);
  }

  lemma {:induction false} StrictValid(c: Cst)
    requires Strict(c)
    ensures Valid(c, Skipped)
  {
    match c
    case CString(l) => StrictLitValid(l);
    case CArray(es) => StrictElemsValid(es);
    case CObject(ms) => StrictMembersValid(ms);
    case _ =>
  }

  lemma {:induction false} StrictElemsValid(es: Elems)
    requires StrictElems(es)
    ensures ValidElems(es, Skipped)
  {
    StrictValid(es.value);
    if es.MoreElems? {
      StrictElemsValid(es.rest);
    }
  }

  lemma {:induction false} StrictMembersValid(ms: Members)
    requires StrictMembers(ms)
    ensures ValidMembers(ms, Skipped)
  {
    StrictLitValid(ms.name.key);
    StrictValid(ms.value);
    if ms.MorePairs? {
      StrictMembersValid(ms.rest);
    }
  }

  lemma StrictDocValid(d: Doc)
    requires StrictDoc(d)
    ensures ValidDoc(d, Skipped)
  {
    StrictValid(d.value);
  }

  /** The parser accepts every text that conforms. */
  lemma ConformingAccepted(s: bytes)
    requires Conforms(s)
    ensures NulFree(s) && ParseDoc(Terminated(s), true).Ok? && StrictDoc(ParseDoc(Terminated(s), true).value)
  {
    var d :| StrictDoc(d) && s == RenderDoc(d);
    hide ParseDoc, RenderDoc, StrictDoc, ValidDoc;
    StrictDocValid(d);
    DocComplete(d);
  }

  /** A text that the parser accepts conforms exactly when the tree it is parsed to is strict. */
  lemma ConformsExactly(z: CString)
    requires ParseDoc(z, true).Ok?
    ensures Conforms(z[..|z| - 1]) <==> StrictDoc(ParseDoc(z, true).value)
  {
    hide ParseDoc, RenderDoc, StrictDoc, ValidDoc;
    var s := z[..|z| - 1];
    assert z == s + [0];
    DocSound(z);
    if d :| StrictDoc(d) && s == RenderDoc(d) {
      StrictDocValid(d);
      DocComplete(d);
      assert Terminated(s) == z;
    }
    if StrictDoc(ParseDoc(z, true).value) {
      assert s == RenderDoc(ParseDoc(z, true).value);
    }
  }

  // ---------- Every printed text conforms ----------

  lemma {:induction false} StrictString(s: bytes)
    requires NulFree(s)
    ensures StrictLit(LitOf(s))
  {
    if s != [] {
      StrictString(s[1..]);
    }
  }

  lemma StrictInteger(n: int)
    ensures StrictNumeral(NumeralOf(n))
  {
    DigitsValue(if n < 0 then -n else n);
  }

  lemma {:induction false} PrintStrict(v: Json, depth: nat, fmt: bool)
    requires Printable(v)
    ensures Strict(CstOf(v, depth, fmt))
    decreases v, 0, 0
  {
    match v
    case Number(r) => StrictInteger(r.Floor);
    case Str(s) => StrictString(s);
    case Array(items) =>
      if items != [] {
        ItemsStrict(items, depth, fmt, 0);
      }
    case Object(ms) =>
      if ms != [] {
        MembersStrict(ms, depth + 1, fmt, 0);
      } else {
        IndentStandard(depth - 1, fmt);
      }
    case _ =>
  }

  lemma {:induction false} ItemsStrict(items: seq<Json>, depth: nat, fmt: bool, i: nat)
    requires i < |items| && Printable(Array(items))
    ensures StrictElems(ElemsOf(items, depth, fmt, i))
    decreases items, 1, |items| - i
  {
    PrintStrict(items[i], depth + 1, fmt);
    if i + 1 < |items| {
      ItemsStrict(items, depth, fmt, i + 1);
    }
  }

  lemma {:induction false} MembersStrict(ms: seq<Member>, depth: nat, fmt: bool, i: nat)
    requires i < |ms| && Printable(Object(ms))
    ensures StrictMembers(MembersOf(ms, depth, fmt, i))
    decreases ms, 1, |ms| - i
  {
    IndentStandard(depth, fmt);
    IndentStandard(depth - 1, fmt);
    StrictString(ms[i].name);
    PrintStrict(ms[i].value, depth, fmt);
    if i + 1 < |ms| {
      MembersStrict(ms, depth, fmt, i + 1);
    }
  }

  /** What is printed, at any depth and in either format, conforms. */
  lemma PrintConforms(v: Json, depth: nat, fmt: bool)
    requires Printable(v)
    ensures Conforms(Print(v, depth, fmt))
  {
    PrintText(v, depth, fmt);
    PrintStrict(v, depth, fmt);
    var d := Doc([], CstOf(v, depth, fmt), []);
    BareDoc(d.value);
    assert StrictDoc(d);
  }

  // ---------- Minifying keeps conforming texts conforming ----------

  lemma {:induction false} StripStrict(c: Cst)
    requires Strict(c)
    ensures Strict(Strip(c))
  {
    match c
    case CNoElems(g) => KeptStandard(g);
    case CNoMembers(g) => KeptStandard(g);
    case CArray(es) => StripElemsStrict(es);
    case CObject(ms) => StripMembersStrict(ms);
    case _ =>
  }

  lemma {:induction false} StripElemsStrict(es: Elems)
    requires StrictElems(es)
    ensures StrictElems(StripElems(es))
  {
    KeptStandard(es.before);
    KeptStandard(es.after);
    StripStrict(es.value);
    if es.MoreElems? {
      StripElemsStrict(es.rest);
    }
  }

  lemma {:induction false} StripMembersStrict(ms: Members)
    requires StrictMembers(ms)
    ensures StrictMembers(StripMembers(ms))
  {
    KeptStandard(ms.name.before);
    KeptStandard(ms.name.middle);
    KeptStandard(ms.name.gap);
    KeptStandard(ms.after);
    StripStrict(ms.value);
    if ms.MorePairs? {
      StripMembersStrict(ms.rest);
    }
  }

  /** A conforming text is minified to a conforming text of the same meaning. */
  lemma ConformingMinified(s: bytes)
    requires Conforms(s)
    ensures NulFree(s) && M.Minify(Terminated(s), 0).Text?
    ensures var m, r := M.Minify(Terminated(s), 0).s, ParseDoc(Terminated(s), true);
            && Conforms(m) && NulFree(m) && r.Ok? && ParseDoc(Terminated(m), true).Ok?
            && Meaning(ParseDoc(Terminated(m), true).value.value) == Meaning(r.value.value)
  {
    ConformingAccepted(s);
    var d := ParseDoc(Terminated(s), true).value;
    StripStrict(d.value);
    KeptStandard(d.before);
    KeptStandard(d.after);
    assert StrictDoc(StripDoc(d)) && !d.value.COpenString?;
    hide ParseDoc, RenderDoc, StrictDoc, Strip, Kept, M.Minify;
    MinifyPreservesMeaning(Terminated(s));
  }

  // ---------- Texts that are accepted and do not conform ----------

  /** The text of a tree that is valid but not strict is accepted all the same. */
  lemma Lax(d: Doc)
    requires ValidDoc(d, Skipped) && !StrictDoc(d)
    ensures NulFree(RenderDoc(d)) && !Conforms(RenderDoc(d))
    ensures ParseDoc(Terminated(RenderDoc(d)), true) == Ok(d, |RenderDoc(d)|)
  {
    hide ParseDoc, RenderDoc, StrictDoc, ValidDoc;
    DocComplete(d);
    ConformsExactly(Terminated(RenderDoc(d)));
    assert Terminated(RenderDoc(d))[..|RenderDoc(d)|] == RenderDoc(d);
  }

  lemma Bare(c: Cst, s: bytes)
    requires Valid(c, Skipped) && !Strict(c) && Render(c) == s
    ensures NulFree(s) && !Conforms(s) && ParseDoc(Terminated(s), true) == Ok(Doc([], c, []), |s|)
  {
    BareDoc(c);
    hide ParseDoc, RenderDoc;
    Lax(Doc([], c, []));
  }

  /** A minus sign alone is the number 0. */
  lemma MinusAlone()
    ensures var s := [MINUS];
            && !Conforms(s) && ParseDoc(Terminated(s), true).Ok?
            && Meaning(ParseDoc(Terminated(s), true).value.value) == Number(0.0)
  {
    var c := CNumber(Numeral(true, false, [], [], NoExp));
    assert Render(c) == [MINUS];
    Bare(c, [MINUS]);
    assert NatOf([]) == 0;
  }

  /** An exponent mark needs no digits. */
  lemma MarkAlone()
    ensures var s := [ZERO + 1, LOWER_E];
            && !Conforms(s) && ParseDoc(Terminated(s), true).Ok?
            && Meaning(ParseDoc(Terminated(s), true).value.value) == Number(1.0)
  {
    var c := CNumber(Numeral(false, false, [ZERO + 1], [], Exp(LOWER_E, NoSign, [])));
    assert Render(c) == [ZERO + 1, LOWER_E];
    Bare(c, [ZERO + 1, LOWER_E]);
    assert NatOf([ZERO + 1]) == 1 && NatOf([]) == 0;
  }

  /** A zero may stand in front of other digits. */
  lemma LeadingZero()
    ensures var s := [ZERO, ZERO + 1];
            && !Conforms(s) && ParseDoc(Terminated(s), true).Ok?
            && Meaning(ParseDoc(Terminated(s), true).value.value) == Number(1.0)
  {
    var c := CNumber(Numeral(false, true, [ZERO + 1], [], NoExp));
    assert Render(c) == [ZERO, ZERO + 1];
    Bare(c, [ZERO, ZERO + 1]);
    assert NatOf([ZERO + 1]) == 1;
  }

  /** But a point that no digit follows is not part of a number: the parser fails at it. */
  lemma PointAlone()
    ensures ParseDoc(Terminated([ZERO + 1, DOT]), true) == Fail(1)
  {
    var z := Terminated([ZERO + 1, DOT]);
    assert z == [ZERO + 1, DOT, 0];
    assert Run(z, 0) == [ZERO + 1] by {
      RunComplete(z, 0, [ZERO + 1], 1);
    }
    assert LexNumeral(z, 0) == NumResult(Numeral(false, false, [ZERO + 1], [], NoExp), 1);
    assert ParseValue(z, 0) == Ok(CNumber(LexNumeral(z, 0).num), 1);
  }

  /** A string may run into the end of the text, hold bare control bytes, and escape any byte by itself. */
  lemma LooseStrings()
    ensures var s := [QUOTE]; !Conforms(s) && ParseDoc(Terminated(s), true) == Ok(Doc([], COpenString(End), []), 1)
    ensures var s := [QUOTE, TAB, QUOTE]; !Conforms(s) && ParseDoc(Terminated(s), true).Ok?
    ensures var s := [QUOTE, BACKSLASH, ZERO, QUOTE]; !Conforms(s) && ParseDoc(Terminated(s), true).Ok?
  {
    assert Render(COpenString(End)) == [QUOTE];
    Bare(COpenString(End), [QUOTE]);
    var tab := CString(Raw(TAB, End));
    assert Render(tab) == [QUOTE, TAB, QUOTE];
    Bare(tab, [QUOTE, TAB, QUOTE]);
    var esc := CString(Esc(ZERO, End));
    assert Render(esc) == [QUOTE, BACKSLASH, ZERO, QUOTE];
    Bare(esc, [QUOTE, BACKSLASH, ZERO, QUOTE]);
  }

  /** Every control byte counts as white space. */
  lemma LooseBlank(b: byte)
    requires 0 < b < SPACE && !IsStandardBlank(b)
    ensures var s := [b] + NULL_WORD; !Conforms(s) && NulFree(s) && ParseDoc(Terminated(s), true).Ok?
  {
    var d := Doc([b], CNull, []);
    assert RenderDoc(d) == [b] + NULL_WORD;
    assert !IsStandardBlank(d.before[0]);
    Lax(d);
  }
}
