/** Concrete syntax of JSON texts (sections 2, 6 and 7 of RFC 8259), as wide as the parser reads it.
    Render gives the text of a syntax tree and Meaning its value. */
module Syntax {
  import opened Bytes
  import opened Utf8
  import opened Values

  predicate IsHex(b: byte) {
    ZERO <= b <= NINE || 65 <= b <= 70 || 97 <= b <= 102
  }

  type HexDigit = b: byte | IsHex(b) witness ZERO

  /** The body of a string literal, piece by piece. */
  datatype Lit =
    | End
    | Raw(b: byte, rest: Lit)
    | Esc(c: byte, rest: Lit)
    | Uni(h1: HexDigit, h2: HexDigit, h3: HexDigit, h4: HexDigit, rest: Lit)

  datatype Sign = NoSign | PlusSign | MinusSign
  datatype Exponent = NoExp | Exp(mark: byte, sign: Sign, digits: Digits)

  /** A numeral as the parser reads it: `zero` is the single leading zero it steps over. */
  datatype Numeral = Numeral(neg: bool, zero: bool, whole: Digits, frac: Digits, exp: Exponent)

  /** Gaps hold the bytes between tokens. An open string runs into the end of the text. */
  datatype Cst =
    | CNull
    | CFalse
    | CTrue
    | CNumber(num: Numeral)
    | CString(lit: Lit)
    | COpenString(lit: Lit)
    | CNoElems(gap: bytes)
    | CArray(elems: Elems)
    | CNoMembers(gap: bytes)
    | CObject(members: Members)

  datatype Elems =
    | LastElem(before: bytes, value: Cst, after: bytes)
    | MoreElems(before: bytes, value: Cst, after: bytes, rest: Elems)

  /** A member name with the gaps around it and its colon. */
  datatype Name = Name(before: bytes, key: Lit, middle: bytes, gap: bytes)

  datatype Members =
    | LastPair(name: Name, value: Cst, after: bytes)
    | MorePairs(name: Name, value: Cst, after: bytes, rest: Members)

  datatype Doc = Doc(before: bytes, value: Cst, after: bytes)

  // ---------- Text ----------

  function RenderLit(l: Lit): bytes {
    match l
    case End => []
    case Raw(b, r) => [b] + RenderLit(r)
    case Esc(c, r) => [BACKSLASH, c] + RenderLit(r)
    case Uni(h1, h2, h3, h4, r) => [BACKSLASH, LOWER_U, h1, h2, h3, h4] + RenderLit(r)
  }

  function RenderSign(s: Sign): bytes {
    match s
    case NoSign => []
    case PlusSign => [PLUS]
    case MinusSign => [MINUS]
  }

  function RenderFrac(frac: Digits): bytes {
    if frac == [] then [] else [DOT] + frac
  }

  function RenderExp(e: Exponent): bytes {
    match e
    case NoExp => []
    case Exp(mark, sign, digits) => [mark] + (RenderSign(sign) + digits)
  }

  function RenderNumeral(n: Numeral): bytes {
    (if n.neg then [MINUS] else [])
    + ((if n.zero then [ZERO] else [])
       + (n.whole + (RenderFrac(n.frac) + RenderExp(n.exp))))
  }

  function RenderString(l: Lit): bytes {
    [QUOTE] + (RenderLit(l) + [QUOTE])
  }

  function Render(c: Cst): bytes {
    match c
    case CNull => NULL_WORD
    case CFalse => FALSE_WORD
    case CTrue => TRUE_WORD
    case CNumber(n) => RenderNumeral(n)
    case CString(l) => RenderString(l)
    case COpenString(l) => [QUOTE] + RenderLit(l)
    case CNoElems(g) => [LBRACKET] + (g + [RBRACKET])
    case CArray(es) => [LBRACKET] + RenderElems(es)
    case CNoMembers(g) => [LBRACE] + (g + [RBRACE])
    case CObject(ms) => [LBRACE] + RenderMembers(ms)
  }

  /** The elements with their separators and the closing bracket. */
  function RenderElems(es: Elems): bytes {
    es.before + (Render(es.value) + (es.after
      + (if es.MoreElems? then [COMMA] + RenderElems(es.rest) else [RBRACKET])))
  }

  function RenderName(n: Name): bytes {
    n.before + (RenderString(n.key) + (n.middle + ([COLON] + n.gap)))
  }

  function RenderMembers(ms: Members): bytes {
    RenderName(ms.name) + (Render(ms.value) + (ms.after
      + (if ms.MorePairs? then [COMMA] + RenderMembers(ms.rest) else [RBRACE])))
  }

  function RenderDoc(d: Doc): bytes {
    d.before + (Render(d.value) + d.after)
  }

  // ---------- Meaning ----------

  function HexValue(b: HexDigit): (v: nat)
    ensures v < 16
  {
    assert IsHex(b);
    if b <= NINE then b - ZERO else if b <= 70 then 10 + (b - 65) else 10 + (b - 97)
  }

  function CodeUnit(h1: HexDigit, h2: HexDigit, h3: HexDigit, h4: HexDigit): (u: nat)
    ensures u < 0x10000
  {
    HexValue(h1) * 4096 + HexValue(h2) * 256 + HexValue(h3) * 16 + HexValue(h4)
  }

  /** What the letter after a backslash stands for. */
  function Unescaped(c: byte): byte {
    if c == LOWER_B then BACKSPACE
    else if c == LOWER_F then FF
    else if c == LOWER_N then LF
    else if c == LOWER_R then CR
    else if c == LOWER_T then TAB
    else c
  }

  /** The string a literal denotes. A surrogate pair is one code point; a lone low surrogate, a zero
      code unit and a high surrogate without its partner denote nothing, and a high surrogate takes a
      following escape that is not its partner with it. */
  function Decoded(l: Lit): bytes {
    match l
    case End => []
    case Raw(b, r) => [b] + Decoded(r)
    case Esc(c, r) => [Unescaped(c)] + Decoded(r)
    case Uni(h1, h2, h3, h4, r) =>
      var u := CodeUnit(h1, h2, h3, h4);
      if u == 0 || IsLowSurrogate(u) then Decoded(r)
      else if !IsHighSurrogate(u) then Encode(u) + Decoded(r)
      else if !r.Uni? then Decoded(r)
      else
        var v := CodeUnit(r.h1, r.h2, r.h3, r.h4);
        if IsLowSurrogate(v) then Encode(PairValue(u, v)) + Decoded(r.rest) else Decoded(r.rest)
  }

  function ExpValue(e: Exponent): int {
    if e.NoExp? then 0
    else
      var n: int := NatOf(e.digits);
      if e.sign.MinusSign? then -n else n
  }

  /** sign x digits x 10^(exponent - number of fraction digits), section 6 of RFC 8259. */
  function NumeralValue(n: Numeral): real {
    (if n.neg then -1.0 else 1.0) * (NatOf(n.whole + n.frac) as real) * Pow10(ExpValue(n.exp) - |n.frac|)
  }

  function Meaning(c: Cst): Json {
    match c
    case CNull => Null
    case CFalse => False
    case CTrue => True
    case CNumber(n) => Number(NumeralValue(n))
    case CString(l) => Str(Decoded(l))
    case COpenString(l) => Str(Decoded(l))
    case CNoElems(_) => Array([])
    case CArray(es) => Array(Items(es))
    case CNoMembers(_) => Object([])
    case CObject(ms) => Object(Pairs(ms))
  }

  function Items(es: Elems): seq<Json> {
    [Meaning(es.value)] + (if es.MoreElems? then Items(es.rest) else [])
  }

  function Pairs(ms: Members): seq<Member> {
    [Member(Decoded(ms.name.key), Meaning(ms.value))] + (if ms.MorePairs? then Pairs(ms.rest) else [])
  }

  // ---------- Well-formedness ----------

  predicate ValidLit(l: Lit) {
    match l
    case End => true
    case Raw(b, r) => b != 0 && b != QUOTE && b != BACKSLASH && ValidLit(r)
    case Esc(c, r) => c != 0 && c != LOWER_U && ValidLit(r)
    case Uni(_, _, _, _, r) => ValidLit(r)
  }

  predicate ValidNumeral(n: Numeral) {
    && (n.neg || n.zero || n.whole != [])
    && (n.whole != [] ==> n.whole[0] != ZERO)
    && (n.exp.Exp? ==> n.exp.mark == LOWER_E || n.exp.mark == UPPER_E)
  }

  predicate IsSkipped(b: byte) {
    0 < b <= SPACE
  }

  predicate AllSkipped(g: bytes) {
    forall i | 0 <= i < |g| :: IsSkipped(g[i])
  }

  predicate IsStandardBlank(b: byte) {
    b == SPACE || b == TAB || b == LF || b == CR
  }

  predicate AllStandard(g: bytes) {
    forall i | 0 <= i < |g| :: IsStandardBlank(g[i])
  }

  /** The first line feed at or after k. */
  function LineEnd(g: bytes, k: nat): (j: nat)
    requires k <= |g|
    ensures k <= j <= |g|
    decreases |g| - k
  {
    if k == |g| || g[k] == LF then k else LineEnd(g, k + 1)
  }

  /** The first star that a slash follows, at or after k. */
  function BlockEnd(g: bytes, k: nat): (j: nat)
    requires k <= |g|
    ensures k <= j <= |g|
    ensures j < |g| ==> j + 1 < |g| && g[j] == STAR && g[j + 1] == SLASH
    decreases |g| - k
  {
    if k == |g| || (k + 1 < |g| && g[k] == STAR && g[k + 1] == SLASH) then k else BlockEnd(g, k + 1)
  }

  predicate LineComment(g: bytes) {
    |g| >= 2 && g[0] == SLASH && g[1] == SLASH && LineEnd(g, 2) < |g|
  }

  predicate BlockComment(g: bytes) {
    |g| >= 2 && g[0] == SLASH && g[1] == STAR && BlockEnd(g, 1) < |g|
  }

  /** Skipped bytes and comments: a line comment runs up to its line feed, a block comment through
      the first star-slash after its opening slash. */
  predicate IsCommented(g: bytes)
    decreases |g|
  {
    || g == []
    || (IsSkipped(g[0]) && IsCommented(g[1..]))
    || (LineComment(g) && IsCommented(g[LineEnd(g, 2)..]))
    || (BlockComment(g) && IsCommented(g[BlockEnd(g, 1) + 2..]))
  }

  /** A line comment that runs up to the end of the text. */
  predicate OpenLine(g: bytes) {
    |g| >= 2 && g[0] == SLASH && g[1] == SLASH && LineEnd(g, 2) == |g|
  }

  /** Behind the value the last line comment needs no line feed. */
  predicate IsCommentedEnd(g: bytes)
    decreases |g|
  {
    || g == []
    || OpenLine(g)
    || (IsSkipped(g[0]) && IsCommentedEnd(g[1..]))
    || (LineComment(g) && IsCommentedEnd(g[LineEnd(g, 2)..]))
    || (BlockComment(g) && IsCommentedEnd(g[BlockEnd(g, 1) + 2..]))
  }

  /** How the bytes between tokens may look: what the parser skips, what section 2 of RFC 8259
      allows, and what the minifier understands. */
  datatype Gaps = Skipped | Standard | Commented

  predicate GapIs(g: bytes, k: Gaps) {
    match k
    case Skipped => AllSkipped(g)
    case Standard => AllStandard(g)
    case Commented => NulFree(g) && IsCommented(g)
  }

  predicate EndIs(g: bytes, k: Gaps) {
    if k.Commented? then NulFree(g) && IsCommentedEnd(g) else GapIs(g, k)
  }

  predicate Valid(c: Cst, k: Gaps) {
    match c
    case CNull | CFalse | CTrue => true
    case CNumber(n) => ValidNumeral(n)
    case CString(l) => ValidLit(l)
    case COpenString(l) => ValidLit(l)
    case CNoElems(g) => GapIs(g, k)
    case CArray(es) => ValidElems(es, k)
    case CNoMembers(g) => GapIs(g, k)
    case CObject(ms) => ValidMembers(ms, k)
  }

  predicate ValidElems(es: Elems, k: Gaps) {
    && GapIs(es.before, k)
    && Valid(es.value, k) && !es.value.COpenString?
    && GapIs(es.after, k)
    && (es.MoreElems? ==> ValidElems(es.rest, k))
  }

  predicate ValidName(n: Name, k: Gaps) {
    GapIs(n.before, k) && ValidLit(n.key) && GapIs(n.middle, k) && GapIs(n.gap, k)
  }

  predicate ValidMembers(ms: Members, k: Gaps) {
    && ValidName(ms.name, k)
    && Valid(ms.value, k) && !ms.value.COpenString?
    && GapIs(ms.after, k)
    && (ms.MorePairs? ==> ValidMembers(ms.rest, k))
  }

  predicate ValidDoc(d: Doc, k: Gaps) {
    && GapIs(d.before, k) && Valid(d.value, k) && EndIs(d.after, k)
    && (d.value.COpenString? ==> d.after == [])
  }
}
