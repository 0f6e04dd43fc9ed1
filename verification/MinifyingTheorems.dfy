/** Minifying a JSON text, commented or not, gives the text of the same syntax tree without its white
    space and comments; so it keeps the meaning, and it turns formatted into unformatted printing. */
module MinifyingTheorems {
  import opened Bytes
  import opened Values
  import opened Syntax
  import opened Parsing
  import opened ParsingTheorems
  import opened Printing
  import opened PrintingTheorems
  import opened Minifying

  // ---------- What is left of a syntax tree ----------

  /** What the minifier leaves of a gap: skipped bytes that are not standard white space. */
  function Kept(g: bytes): bytes
    decreases |g|
  {
    if g == [] then []
    else if IsStandardBlank(g[0]) then Kept(g[1..])
    else if LineComment(g) then Kept(g[LineEnd(g, 2)..])
    else if BlockComment(g) then Kept(g[BlockEnd(g, 1) + 2..])
    else if OpenLine(g) then []
    else [g[0]] + Kept(g[1..])
  }

  function Strip(c: Cst): Cst {
    match c
    case CNoElems(g) => CNoElems(Kept(g))
    case CArray(es) => CArray(StripElems(es))
    case CNoMembers(g) => CNoMembers(Kept(g))
    case CObject(ms) => CObject(StripMembers(ms))
    case _ => c
  }

  function StripElems(es: Elems): Elems {
    var before, value, after := Kept(es.before), Strip(es.value), Kept(es.after);
    if es.MoreElems? then MoreElems(before, value, after, StripElems(es.rest)) else LastElem(before, value, after)
  }

  function StripName(n: Name): Name {
    Name(Kept(n.before), n.key, Kept(n.middle), Kept(n.gap))
  }

  function StripMembers(ms: Members): Members {
    var name, value, after := StripName(ms.name), Strip(ms.value), Kept(ms.after);
    if ms.MorePairs? then MorePairs(name, value, after, StripMembers(ms.rest)) else LastPair(name, value, after)
  }

  function StripDoc(d: Doc): Doc {
    Doc(Kept(d.before), Strip(d.value), Kept(d.after))
  }

  lemma {:induction false} KeptSkipped(g: bytes)
    requires IsCommented(g)
    ensures AllSkipped(Kept(g))
    decreases |g|
  {
    if g != [] {
      if IsSkipped(g[0]) {
        KeptSkipped(g[1..]);
      } else if LineComment(g) {
        KeptSkipped(g[LineEnd(g, 2)..]);
      } else {
        KeptSkipped(g[BlockEnd(g, 1) + 2..]);
      }
    }
  }

  lemma {:induction false} EndSkipped(g: bytes)
    requires IsCommentedEnd(g)
    ensures AllSkipped(Kept(g))
    decreases |g|
  {
    if g != [] && !OpenLine(g) {
      if IsSkipped(g[0]) {
        EndSkipped(g[1..]);
      } else if LineComment(g) {
        EndSkipped(g[LineEnd(g, 2)..]);
      } else {
        EndSkipped(g[BlockEnd(g, 1) + 2..]);
      }
    }
  }

  lemma {:induction false} StripKeeps(c: Cst)
    requires Valid(c, Commented)
    ensures Valid(Strip(c), Skipped) && Meaning(Strip(c)) == Meaning(c) && Strip(c).COpenString? == c.COpenString?
  {
    hide Kept, IsCommented, AllSkipped;
    match c
    case CNoElems(g) => KeptSkipped(g);
    case CNoMembers(g) => KeptSkipped(g);
    case CArray(es) => StripElemsKeeps(es);
    case CObject(ms) => StripMembersKeeps(ms);
    case _ =>
  }

  lemma {:induction false} StripElemsKeeps(es: Elems)
    requires ValidElems(es, Commented)
    ensures ValidElems(StripElems(es), Skipped) && Items(StripElems(es)) == Items(es)
  {
    hide Kept, IsCommented, AllSkipped;
    KeptSkipped(es.before);
    StripKeeps(es.value);
    KeptSkipped(es.after);
    if es.MoreElems? {
      StripElemsKeeps(es.rest);
    }
  }

  lemma {:induction false} StripMembersKeeps(ms: Members)
    requires ValidMembers(ms, Commented)
    ensures ValidMembers(StripMembers(ms), Skipped) && Pairs(StripMembers(ms)) == Pairs(ms)
  {
    hide Kept, IsCommented, AllSkipped;
    KeptSkipped(ms.name.before);
    KeptSkipped(ms.name.middle);
    KeptSkipped(ms.name.gap);
    StripKeeps(ms.value);
    KeptSkipped(ms.after);
    if ms.MorePairs? {
      StripMembersKeeps(ms.rest);
    }
  }

  // ---------- The minifier on the parts of a text ----------

  lemma {:induction false} LineStopIs(z: CString, i: nat, g: bytes, j: nat, k: nat)
    requires Spans(z, i, g, j) && NulFree(g) && k <= |g| && LineEnd(g, k) < |g| && j < |z|
    ensures LineStop(z, i + k) == i + LineEnd(g, k)
    decreases |g| - k
  {
    SpanAt(z, i, g, j, k);
    if g[k] != LF {
      LineStopIs(z, i, g, j, k + 1);
    }
  }

  lemma {:induction false} BlockStopIs(z: CString, i: nat, g: bytes, j: nat, k: nat)
    requires Spans(z, i, g, j) && NulFree(g) && k <= |g| && BlockEnd(g, k) < |g| && j < |z|
    ensures BlockStop(z, i + k) == i + BlockEnd(g, k)
    decreases |g| - k
  {
    SpanAt(z, i, g, j, k);
    SpanAt(z, i, g, j, k + 1);
    if !(g[k] == STAR && g[k + 1] == SLASH) {
      BlockStopIs(z, i, g, j, k + 1);
    }
  }

  lemma SpanDrop(z: CString, i: nat, s: bytes, j: nat, k: nat)
    requires Spans(z, i, s, j) && k <= |s|
    ensures Spans(z, i + k, s[k..], j)
  {
    assert s == s[..k] + s[k..];
    SpanSplit(z, i, s[..k], s[k..], j);
  }

  lemma {:induction false} GapMinified(z: CString, i: nat, g: bytes, j: nat)
    requires Spans(z, i, g, j) && j < |z| && NulFree(g) && IsCommented(g)
    ensures Minify(z, i) == Then(Kept(g), Minify(z, j))
    decreases |g|
  {
    hide Spans, IsCString, Minify;
    SpanFits(z, i, g, j);
    if g == [] {
      ThenNone(Minify(z, j));
    } else {
      SpanAt(z, i, g, j, 0);
      if IsSkipped(g[0]) {
        SpanDrop(z, i, g, j, 1);
        BlankMinified(z, i);
        GapMinified(z, i + 1, g[1..], j);
        ThenThen([g[0]], Kept(g[1..]), Minify(z, j));
      } else if LineComment(g) {
        LineMinified(z, i, g, j);
        SpanDrop(z, i, g, j, LineEnd(g, 2));
        GapMinified(z, i + LineEnd(g, 2), g[LineEnd(g, 2)..], j);
      } else {
        BlockMinified(z, i, g, j);
        SpanDrop(z, i, g, j, BlockEnd(g, 1) + 2);
        GapMinified(z, i + BlockEnd(g, 1) + 2, g[BlockEnd(g, 1) + 2..], j);
      }
    }
  }

  /** The same for what follows the value, up to the end of the text. */
  lemma {:induction false} EndMinified(z: CString, i: nat, g: bytes, j: nat)
    requires j + 1 == |z| && Spans(z, i, g, j) && NulFree(g) && IsCommentedEnd(g)
    ensures Minify(z, i) == Text(Kept(g))
    decreases |g|
  {
    hide Spans, IsCString, Minify, Kept;
    NothingMinified(z, j);
    KeptEnd(g);
    SpanFits(z, i, g, j);
    if g == [] {
    } else if OpenLine(g) {
      OpenLineMinified(z, i, g, j);
    } else {
      SpanAt(z, i, g, j, 0);
      if IsSkipped(g[0]) {
        SpanDrop(z, i, g, j, 1);
        BlankMinified(z, i);
        EndMinified(z, i + 1, g[1..], j);
        if !IsStandardBlank(g[0]) {
          assert Then([g[0]], Text(Kept(g[1..]))) == Text([g[0]] + Kept(g[1..]));
        }
      } else if LineComment(g) {
        LineMinified(z, i, g, j);
        SpanDrop(z, i, g, j, LineEnd(g, 2));
        EndMinified(z, i + LineEnd(g, 2), g[LineEnd(g, 2)..], j);
      } else {
        BlockMinified(z, i, g, j);
        SpanDrop(z, i, g, j, BlockEnd(g, 1) + 2);
        EndMinified(z, i + BlockEnd(g, 1) + 2, g[BlockEnd(g, 1) + 2..], j);
      }
    }
  }

  lemma NothingMinified(z: CString, j: nat)
    requires j + 1 == |z|
    ensures Minify(z, j) == Text([])
  {
  }

  lemma KeptEnd(g: bytes)
    requires IsCommentedEnd(g)
    ensures Kept(g) ==
            if g == [] || OpenLine(g) then []
            else if IsStandardBlank(g[0]) then Kept(g[1..])
            else if IsSkipped(g[0]) then [g[0]] + Kept(g[1..])
            else if LineComment(g) then Kept(g[LineEnd(g, 2)..])
            else Kept(g[BlockEnd(g, 1) + 2..])
  {
  }

  lemma OpenLineMinified(z: CString, i: nat, g: bytes, j: nat)
    requires j + 1 == |z| && Spans(z, i, g, j) && NulFree(g) && OpenLine(g)
    ensures Minify(z, i) == Text([])
  {
    SpanAt(z, i, g, j, 0);
    SpanAt(z, i, g, j, 1);
    SpanFits(z, i, g, j);
    OpenLineStop(z, i, g, j, 2);
    assert LineStop(z, i + 1) == LineStop(z, i + 2);
    hide Spans;
    NothingMinified(z, j);
  }

  lemma {:induction false} OpenLineStop(z: CString, i: nat, g: bytes, j: nat, k: nat)
    requires j + 1 == |z| && Spans(z, i, g, j) && NulFree(g) && k <= |g| && LineEnd(g, k) == |g|
    ensures i + k < |z| && LineStop(z, i + k) == j
    decreases |g| - k
  {
    SpanFits(z, i, g, j);
    if k < |g| {
      SpanAt(z, i, g, j, k);
      OpenLineStop(z, i, g, j, k + 1);
    }
  }

  lemma BlankMinified(z: CString, i: nat)
    requires i < |z| && IsSkipped(z[i])
    ensures Minify(z, i) == if IsStandardBlank(z[i]) then Minify(z, i + 1) else Then([z[i]], Minify(z, i + 1))
  {
  }

  lemma LineMinified(z: CString, i: nat, g: bytes, j: nat)
    requires Spans(z, i, g, j) && j < |z| && NulFree(g) && LineComment(g)
    ensures Minify(z, i) == Minify(z, i + LineEnd(g, 2))
  {
    hide Spans;
    SpanAt(z, i, g, j, 0);
    SpanAt(z, i, g, j, 1);
    LineStopIs(z, i, g, j, 2);
    assert LineStop(z, i + 1) == LineStop(z, i + 2);
  }

  lemma BlockMinified(z: CString, i: nat, g: bytes, j: nat)
    requires Spans(z, i, g, j) && j < |z| && NulFree(g) && BlockComment(g)
    ensures i + BlockEnd(g, 1) + 2 < |z|
    ensures Minify(z, i) == Minify(z, i + BlockEnd(g, 1) + 2)
  {
    hide Spans;
    SpanFits(z, i, g, j);
    SpanAt(z, i, g, j, 0);
    SpanAt(z, i, g, j, 1);
    BlockStopIs(z, i, g, j, 1);
    SpanAt(z, i, g, j, BlockEnd(g, 1));
  }

  /** Bytes the minifier copies wherever they stand outside strings. */
  predicate IsCopied(b: byte) {
    b > SPACE && b != SLASH && b != QUOTE
  }

  predicate AllCopied(s: bytes) {
    forall k | 0 <= k < |s| :: IsCopied(s[k])
  }

  lemma {:induction false} CopyMinified(z: CString, i: nat, s: bytes, j: nat)
    requires Spans(z, i, s, j) && j < |z| && AllCopied(s)
    ensures Minify(z, i) == Then(s, Minify(z, j))
    decreases |s|
  {
    if s == [] {
      ThenNone(Minify(z, j));
    } else {
      SpanTail(z, i, s, j);
      CopyMinified(z, i + 1, s[1..], j);
      ThenThen([s[0]], s[1..], Minify(z, j));
      assert [s[0]] + s[1..] == s;
    }
  }

  lemma ByteMinified(z: CString, i: nat, b: byte)
    requires i + 1 < |z| && z[i] == b && IsCopied(b)
    ensures Minify(z, i) == Then([b], Minify(z, i + 1))
  {
  }

  lemma {:induction false} LitMinified(z: CString, i: nat, l: Lit, j: nat)
    requires ValidLit(l) && Spans(z, i, RenderLit(l), j) && j < |z|
    ensures MinifyString(z, i) == Then(RenderLit(l), MinifyString(z, j))
    decreases l
  {
    hide Spans, IsCString, Minify, MinifyString;
    SpanFits(z, i, RenderLit(l), j);
    match l
    case End =>
      ThenNone(MinifyString(z, j));
    case Raw(b, r) =>
      SpanSplit(z, i, [b], RenderLit(r), j);
      RawMinified(z, i, b);
      LitMinified(z, i + 1, r, j);
      ThenThen([b], RenderLit(r), MinifyString(z, j));
    case Esc(c, r) =>
      SpanSplit(z, i, [BACKSLASH, c], RenderLit(r), j);
      EscMinified(z, i, c);
      LitMinified(z, i + 2, r, j);
      ThenThen([BACKSLASH, c], RenderLit(r), MinifyString(z, j));
    case Uni(h1, h2, h3, h4, r) =>
      var u := [BACKSLASH, LOWER_U, h1, h2, h3, h4];
      SpanSplit(z, i, u, RenderLit(r), j);
      UniMinified(z, i, h1, h2, h3, h4);
      LitMinified(z, i + 6, r, j);
      ThenThen(u, RenderLit(r), MinifyString(z, j));
  }

  lemma RawMinified(z: CString, i: nat, b: byte)
    requires Spans(z, i, [b], i + 1) && i + 1 < |z| && b != 0 && b != QUOTE && b != BACKSLASH
    ensures MinifyString(z, i) == Then([b], MinifyString(z, i + 1))
  {
    SpanAt(z, i, [b], i + 1, 0);
  }

  lemma EscMinified(z: CString, i: nat, c: byte)
    requires Spans(z, i, [BACKSLASH, c], i + 2) && i + 2 < |z| && c != 0
    ensures MinifyString(z, i) == Then([BACKSLASH, c], MinifyString(z, i + 2))
  {
    SpanAt(z, i, [BACKSLASH, c], i + 2, 0);
    SpanAt(z, i, [BACKSLASH, c], i + 2, 1);
  }

  lemma UniMinified(z: CString, i: nat, h1: HexDigit, h2: HexDigit, h3: HexDigit, h4: HexDigit)
    requires Spans(z, i, [BACKSLASH, LOWER_U, h1, h2, h3, h4], i + 6) && i + 6 < |z|
    ensures MinifyString(z, i) == Then([BACKSLASH, LOWER_U, h1, h2, h3, h4], MinifyString(z, i + 6))
  {
    hide Spans, MinifyString, IsCString;
    var a, b, c, d, e := [BACKSLASH, LOWER_U], [h1 as byte], [h2 as byte], [h3 as byte], [h4 as byte];
    assert [BACKSLASH, LOWER_U, h1, h2, h3, h4] == a + (b + (c + (d + e)));
    SpanSplit(z, i, a, b + (c + (d + e)), i + 6);
    SpanSplit(z, i + 2, b, c + (d + e), i + 6);
    SpanSplit(z, i + 3, c, d + e, i + 6);
    SpanSplit(z, i + 4, d, e, i + 6);
    assert IsHex(h1) && IsHex(h2) && IsHex(h3) && IsHex(h4);
    EscMinified(z, i, LOWER_U);
    RawMinified(z, i + 2, h1);
    RawMinified(z, i + 3, h2);
    RawMinified(z, i + 4, h3);
    RawMinified(z, i + 5, h4);
    ThenThen(d, e, MinifyString(z, i + 6));
    ThenThen(c, d + e, MinifyString(z, i + 6));
    ThenThen(b, c + (d + e), MinifyString(z, i + 6));
    ThenThen(a, b + (c + (d + e)), MinifyString(z, i + 6));
  }

  lemma StringMinified(z: CString, i: nat, l: Lit, j: nat)
    requires ValidLit(l) && Spans(z, i, RenderString(l), j) && j < |z|
    ensures Minify(z, i) == Then(RenderString(l), Minify(z, j))
  {
    hide Spans, IsCString;
    SpanFits(z, i, RenderString(l), j);
    SpanSplit(z, i, [QUOTE], RenderLit(l) + [QUOTE], j);
    SpanAt(z, i, [QUOTE], i + 1, 0);
    SpanSplit(z, i + 1, RenderLit(l), [QUOTE], j);
    SpanAt(z, j - 1, [QUOTE], j, 0);
    LitMinified(z, i + 1, l, j - 1);
    ThenThen(RenderLit(l), [QUOTE], Minify(z, j));
    ThenThen([QUOTE], RenderLit(l) + [QUOTE], Minify(z, j));
  }

  lemma DigitsCopied(ds: Digits)
    ensures AllCopied(ds)
  {
    forall k | 0 <= k < |ds| ensures IsCopied(ds[k]) {
      assert IsDigit(ds[k]);
    }
  }

  lemma JoinCopied(a: bytes, b: bytes)
    requires AllCopied(a) && AllCopied(b)
    ensures AllCopied(a + b)
  {
  }

  lemma FewCopied(n: Numeral)
    requires ValidNumeral(n)
    ensures AllCopied(if n.neg then [MINUS] else []) && AllCopied(if n.zero then [ZERO] else [])
    ensures AllCopied(RenderFrac(n.frac)) && AllCopied(RenderExp(n.exp))
  {
    DigitsCopied(n.frac);
    if n.exp.Exp? {
      DigitsCopied(n.exp.digits);
    }
  }

  lemma NumeralCopied(n: Numeral)
    requires ValidNumeral(n)
    ensures AllCopied(RenderNumeral(n))
  {
    hide AllCopied, RenderFrac, RenderExp;
    var sign, zero := if n.neg then [MINUS] else [], if n.zero then [ZERO] else [];
    FewCopied(n);
    DigitsCopied(n.whole);
    JoinCopied(RenderFrac(n.frac), RenderExp(n.exp));
    JoinCopied(n.whole, RenderFrac(n.frac) + RenderExp(n.exp));
    JoinCopied(zero, n.whole + (RenderFrac(n.frac) + RenderExp(n.exp)));
    JoinCopied(sign, zero + (n.whole + (RenderFrac(n.frac) + RenderExp(n.exp))));
  }

  // ---------- The minifier on whole texts ----------

  /** The minifier maps the text of a syntax tree to the text of the stripped tree. */
  lemma {:induction false} ValueMinified(z: CString, i: nat, c: Cst, j: nat)
    requires Valid(c, Commented) && !c.COpenString? && Spans(z, i, Render(c), j) && j < |z|
    ensures Minify(z, i) == Then(Render(Strip(c)), Minify(z, j))
    decreases c
  {
    hide Spans, IsCString, Minify, IsCommented, NulFree, RenderNumeral, RenderString, Kept, RenderElems, RenderMembers;
    SpanFits(z, i, Render(c), j);
    match c
    case CNull | CFalse | CTrue => CopyMinified(z, i, Render(c), j);
    case CNumber(n) =>
      NumeralCopied(n);
      CopyMinified(z, i, Render(c), j);
    case CString(l) => StringMinified(z, i, l, j);
    case CNoElems(g) => EmptyMinified(z, i, LBRACKET, g, RBRACKET, j);
    case CNoMembers(g) => EmptyMinified(z, i, LBRACE, g, RBRACE, j);
    case CArray(es) =>
      SpanSplit(z, i, [LBRACKET], RenderElems(es), j);
      OpenMinified(z, i, LBRACKET, RenderElems(es), j);
      ElemsMinified(z, i + 1, es, j);
      ThenThen([LBRACKET], RenderElems(StripElems(es)), Minify(z, j));
    case CObject(ms) =>
      SpanSplit(z, i, [LBRACE], RenderMembers(ms), j);
      OpenMinified(z, i, LBRACE, RenderMembers(ms), j);
      MembersMinified(z, i + 1, ms, j);
      ThenThen([LBRACE], RenderMembers(StripMembers(ms)), Minify(z, j));
  }

  lemma OpenMinified(z: CString, i: nat, open: byte, s: bytes, j: nat)
    requires Spans(z, i, [open] + s, j) && j < |z| && IsCopied(open)
    ensures Minify(z, i) == Then([open], Minify(z, i + 1))
  {
    SpanAt(z, i, [open] + s, j, 0);
    ByteMinified(z, i, open);
  }

  lemma EmptyMinified(z: CString, i: nat, open: byte, g: bytes, close: byte, j: nat)
    requires Spans(z, i, [open] + (g + [close]), j) && j < |z| && GapIs(g, Commented)
    requires IsCopied(open) && IsCopied(close)
    ensures Minify(z, i) == Then([open] + (Kept(g) + [close]), Minify(z, j))
  {
    hide Spans, IsCString, Minify, IsCommented, NulFree, Kept;
    SpanFits(z, i, [open] + (g + [close]), j);
    OpenMinified(z, i, open, g + [close], j);
    SpanSplit(z, i, [open], g + [close], j);
    SpanSplit(z, i + 1, g, [close], j);
    SpanAt(z, j - 1, [close], j, 0);
    ByteMinified(z, j - 1, close);
    GapMinified(z, i + 1, g, j - 1);
    ThenThen(Kept(g), [close], Minify(z, j));
    ThenThen([open], Kept(g) + [close], Minify(z, j));
  }

  lemma {:induction false} ElemsMinified(z: CString, i: nat, es: Elems, j: nat)
    requires ValidElems(es, Commented) && Spans(z, i, RenderElems(es), j) && j < |z|
    ensures Minify(z, i) == Then(RenderElems(StripElems(es)), Minify(z, j))
    decreases es
  {
    hide Spans, IsCString, Minify, IsCommented, NulFree, Kept, Render, Strip;
    var b, e, a := ElemsSplit(z, i, es, j);
    SpanFits(z, i, es.before, b);
    SpanFits(z, b, Render(es.value), e);
    SpanFits(z, e, es.after, a);
    var ts := StripElems(es);
    var r := Minify(z, j);
    GapMinified(z, i, es.before, b);
    ValueMinified(z, b, es.value, e);
    GapMinified(z, e, es.after, a);
    var tail := if es.MoreElems? then [COMMA] + RenderElems(ts.rest) else [RBRACKET];
    ByteMinified(z, a, z[a]);
    if es.MoreElems? {
      ElemsMinified(z, a + 1, es.rest, j);
      ThenThen([COMMA], RenderElems(ts.rest), r);
    }
    assert Minify(z, a) == Then(tail, r);
    ElemTexts(ts.before, Render(ts.value), ts.after, tail, r);
  }

  lemma ElemTexts(before: bytes, value: bytes, after: bytes, tail: bytes, r: Minified)
    ensures Then(before, Then(value, Then(after, Then(tail, r)))) == Then(before + (value + (after + tail)), r)
  {
    hide Then;
    ThenThen(after, tail, r);
    ThenThen(value, after + tail, r);
    ThenThen(before, value + (after + tail), r);
  }

  lemma NameMinified(z: CString, i: nat, n: Name, j: nat)
    requires ValidName(n, Commented) && Spans(z, i, RenderName(n), j) && j < |z|
    ensures Minify(z, i) == Then(RenderName(StripName(n)), Minify(z, j))
  {
    hide Spans, IsCString, Minify, IsCommented, NulFree, Kept, RenderString;
    var r, s := Minify(z, j), RenderString(n.key);
    var b, k, m := NameSplit(z, i, n, j);
    GapMinified(z, i, n.before, b);
    StringMinified(z, b, n.key, k);
    GapMinified(z, k, n.middle, m);
    ByteMinified(z, m, COLON);
    GapMinified(z, m + 1, n.gap, j);
    ThenThen([COLON], Kept(n.gap), r);
    ThenThen(Kept(n.middle), [COLON] + Kept(n.gap), r);
    ThenThen(s, Kept(n.middle) + ([COLON] + Kept(n.gap)), r);
    ThenThen(Kept(n.before), s + (Kept(n.middle) + ([COLON] + Kept(n.gap))), r);
  }

  lemma {:induction false} MembersMinified(z: CString, i: nat, ms: Members, j: nat)
    requires ValidMembers(ms, Commented) && Spans(z, i, RenderMembers(ms), j) && j < |z|
    ensures Minify(z, i) == Then(RenderMembers(StripMembers(ms)), Minify(z, j))
    decreases ms
  {
    hide Spans, IsCString, Minify, IsCommented, NulFree, Kept, Render, Strip, RenderName, StripName;
    var g, e, a := MembersSplit(z, i, ms, j);
    SpanFits(z, i, RenderName(ms.name), g);
    SpanFits(z, g, Render(ms.value), e);
    SpanFits(z, e, ms.after, a);
    var ts := StripMembers(ms);
    var r := Minify(z, j);
    NameMinified(z, i, ms.name, g);
    ValueMinified(z, g, ms.value, e);
    GapMinified(z, e, ms.after, a);
    var tail := if ms.MorePairs? then [COMMA] + RenderMembers(ts.rest) else [RBRACE];
    ByteMinified(z, a, z[a]);
    if ms.MorePairs? {
      MembersMinified(z, a + 1, ms.rest, j);
      ThenThen([COMMA], RenderMembers(ts.rest), r);
    }
    assert Minify(z, a) == Then(tail, r);
    ElemTexts(RenderName(ts.name), Render(ts.value), ts.after, tail, r);
  }

  /** Minifying a document, with comments or without, leaves the text of the stripped document. */
  lemma DocMinified(d: Doc)
    requires ValidDoc(d, Commented) && !d.value.COpenString?
    ensures NulFree(RenderDoc(d)) && Minify(Terminated(RenderDoc(d)), 0) == Text(RenderDoc(StripDoc(d)))
  {
    DocNulFree(d, Commented);
    var z, n := Terminated(RenderDoc(d)), |RenderDoc(d)|;
    SpanPrefix(z, RenderDoc(d));
    hide Spans, IsCString, Minify, IsCommented, IsCommentedEnd, NulFree, Kept, Render, Strip;
    var b, e := SpanSplit3(z, 0, d.before, Render(d.value), d.after, n);
    GapMinified(z, 0, d.before, b);
    ValueMinified(z, b, d.value, e);
    EndMinified(z, e, d.after, n);
    var t := StripDoc(d);
    assert Then(t.before, Then(Render(t.value), Text(t.after))) == Text(RenderDoc(t));
  }

  /** Parsing the minified text of a document, commented or not, gives the document's meaning. */
  lemma MinifyThenParse(d: Doc)
    requires ValidDoc(d, Commented) && !d.value.COpenString?
    ensures NulFree(RenderDoc(d)) && NulFree(RenderDoc(StripDoc(d)))
    ensures Minify(Terminated(RenderDoc(d)), 0) == Text(RenderDoc(StripDoc(d)))
    ensures ParseDoc(Terminated(RenderDoc(StripDoc(d))), true) == Ok(StripDoc(d), |RenderDoc(StripDoc(d))|)
    ensures Meaning(StripDoc(d).value) == Meaning(d.value)
  {
    hide ParseDoc, Minify, Render, Strip, Kept, IsCommented, IsCommentedEnd;
    DocMinified(d);
    KeptSkipped(d.before);
    StripKeeps(d.value);
    EndSkipped(d.after);
    DocComplete(StripDoc(d));
  }

  lemma {:induction false} GapFromSkipped(g: bytes)
    requires AllSkipped(g)
    ensures GapIs(g, Commented)
    decreases |g|
  {
    if g != [] {
      GapFromSkipped(g[1..]);
    }
  }

  lemma {:induction false} EndFromSkipped(g: bytes)
    requires AllSkipped(g)
    ensures IsCommentedEnd(g)
    decreases |g|
  {
    if g != [] {
      EndFromSkipped(g[1..]);
    }
  }

  lemma {:induction false} CommentedFromSkipped(c: Cst)
    requires Valid(c, Skipped)
    ensures Valid(c, Commented)
  {
    hide IsCommented, NulFree, AllSkipped;
    match c
    case CNoElems(g) => GapFromSkipped(g);
    case CNoMembers(g) => GapFromSkipped(g);
    case CArray(es) => ElemsFromSkipped(es);
    case CObject(ms) => MembersFromSkipped(ms);
    case _ =>
  }

  lemma {:induction false} ElemsFromSkipped(es: Elems)
    requires ValidElems(es, Skipped)
    ensures ValidElems(es, Commented)
  {
    hide IsCommented, NulFree, AllSkipped;
    GapFromSkipped(es.before);
    CommentedFromSkipped(es.value);
    GapFromSkipped(es.after);
    if es.MoreElems? {
      ElemsFromSkipped(es.rest);
    }
  }

  lemma {:induction false} MembersFromSkipped(ms: Members)
    requires ValidMembers(ms, Skipped)
    ensures ValidMembers(ms, Commented)
  {
    hide IsCommented, NulFree, AllSkipped;
    GapFromSkipped(ms.name.before);
    GapFromSkipped(ms.name.middle);
    GapFromSkipped(ms.name.gap);
    CommentedFromSkipped(ms.value);
    GapFromSkipped(ms.after);
    if ms.MorePairs? {
      MembersFromSkipped(ms.rest);
    }
  }

  lemma DocFromSkipped(d: Doc)
    requires ValidDoc(d, Skipped)
    ensures ValidDoc(d, Commented)
  {
    hide IsCommented, IsCommentedEnd, NulFree, AllSkipped;
    GapFromSkipped(d.before);
    CommentedFromSkipped(d.value);
    GapFromSkipped(d.after);
    EndFromSkipped(d.after);
  }

  lemma OpenStringOverruns(d: Doc, z: CString)
    requires ValidDoc(d, Commented) && d.value.COpenString? && z == RenderDoc(d) + [0]
    ensures Minify(z, 0) == Overrun
  {
    var l := d.value.lit;
    SpanPrefix(z, RenderDoc(d));
    OpenEnd(z);
    hide Spans, IsCString, IsCommented, NulFree, Kept, MinifyString, RenderLit;
    var b, e := SpanSplit3(z, 0, d.before, Render(d.value), d.after, |z| - 1);
    SpanSplit(z, b, [QUOTE], RenderLit(l), e);
    SpanAt(z, b, [QUOTE], b + 1, 0);
    LitMinified(z, b + 1, l, e);
    GapMinified(z, 0, d.before, b);
  }

  lemma OpenEnd(z: CString)
    ensures MinifyString(z, |z| - 1) == Overrun
  {
  }

  /** For every text the parser accepts to its end: the minifier overruns it exactly when its value is
      an unclosed string, and otherwise leaves a text that parses to the same meaning. */
  lemma MinifyPreservesMeaning(z: CString)
    requires ParseDoc(z, true).Ok?
    ensures var d := ParseDoc(z, true).value;
      if d.value.COpenString? then Minify(z, 0) == Overrun
      else
        && Minify(z, 0) == Text(RenderDoc(StripDoc(d)))
        && NulFree(RenderDoc(StripDoc(d)))
        && ParseDoc(Terminated(RenderDoc(StripDoc(d))), true).Ok?
        && Meaning(ParseDoc(Terminated(RenderDoc(StripDoc(d))), true).value.value) == Meaning(d.value)
  {
    hide ParseDoc, Minify, RenderDoc, Strip, Kept, ValidDoc;
    var d := ParseDoc(z, true).value;
    DocSound(z);
    DocFromSkipped(d);
    if d.value.COpenString? {
      OpenStringOverruns(d, z);
    } else {
      MinifyThenParse(d);
    }
  }

  // ---------- Formatted and unformatted printing ----------

  lemma {:induction false} KeptStandard(g: bytes)
    requires AllStandard(g)
    ensures Kept(g) == []
    decreases |g|
  {
    if g != [] {
      KeptStandard(g[1..]);
    }
  }

  lemma {:induction false} StripPrinted(v: Json, depth: nat, depth': nat, fmt: bool)
    requires Printable(v)
    ensures Strip(CstOf(v, depth, fmt)) == CstOf(v, depth', false)
    decreases v, 0, 0
  {
    hide Kept, Indent, LineBreak, ElemsOf, MembersOf, LitOf;
    match v
    case Array(items) =>
      if items == [] {
        KeptStandard([]);
      } else {
        StripItems(items, depth, depth', fmt, 0);
      }
    case Object(ms) =>
      if ms == [] {
        NoGaps(depth - 1, depth' - 1, fmt);
      } else {
        StripPairs(ms, depth + 1, depth' + 1, fmt, 0);
      }
    case _ =>
  }

  lemma NoGaps(n: int, n': int, fmt: bool)
    ensures Kept(LineBreak(fmt) + Indent(n, fmt)) == [] && LineBreak(false) + Indent(n', false) == []
  {
    IndentStandard(n, fmt);
    KeptStandard(LineBreak(fmt) + Indent(n, fmt));
  }

  lemma {:induction false} StripItems(items: seq<Json>, depth: nat, depth': nat, fmt: bool, i: nat)
    requires i < |items| && Printable(Array(items))
    ensures StripElems(ElemsOf(items, depth, fmt, i)) == ElemsOf(items, depth', false, i)
    decreases items, 1, |items| - i
  {
    hide CstOf, Strip, Kept;
    KeptStandard([]);
    KeptStandard([SPACE]);
    StripPrinted(items[i], depth + 1, depth' + 1, fmt);
    if i + 1 < |items| {
      StripItems(items, depth, depth', fmt, i + 1);
    }
  }

  lemma {:induction false} StripPairs(ms: seq<Member>, depth: nat, depth': nat, fmt: bool, i: nat)
    requires i < |ms| && Printable(Object(ms))
    ensures StripMembers(MembersOf(ms, depth, fmt, i)) == MembersOf(ms, depth', false, i)
    decreases ms, 1, |ms| - i
  {
    hide CstOf, Strip, Kept, Indent, LineBreak, LitOf;
    KeptStandard([]);
    KeptStandard([TAB]);
    NoGaps(depth, depth', fmt);
    NoGaps(depth - 1, depth' - 1, fmt);
    StripPrinted(ms[i].value, depth, depth', fmt);
    if i + 1 < |ms| {
      StripPairs(ms, depth, depth', fmt, i + 1);
    }
  }

  /** Minifying printed text, whatever its format and depth, gives the unformatted print. */
  lemma MinifiedPrint(v: Json, depth: nat, fmt: bool)
    requires Printable(v)
    ensures NulFree(Print(v, depth, fmt))
    ensures Minify(Terminated(Print(v, depth, fmt)), 0) == Text(Print(v, 0, false))
  {
    hide Minify, Print, Render, Strip, CstOf, Valid;
    var c := CstOf(v, depth, fmt);
    PrintNulFree(v, depth, fmt);
    PrintText(v, depth, fmt);
    PrintText(v, 0, false);
    PrintMeaning(v, depth, fmt);
    SkippedFromStandard(c);
    CommentedFromSkipped(c);
    StripPrinted(v, depth, 0, fmt);
    KeptNone();
    BareDoc(c);
    BareDoc(Strip(c));
    DocMinified(Doc([], c, []));
  }

  lemma KeptNone()
    ensures Kept([]) == []
  {
  }
}
