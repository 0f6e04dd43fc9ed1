/** The printed text of a value, as print_value, print_array, print_object, print_string_ptr and
    print_number compose it, and the concrete syntax tree that text belongs to. */
module Printing {
  import opened Bytes
  import opened Values
  import opened Syntax

  // ---------- Numbers and strings ----------

  /** Decimal digits without leading zeros, as %d writes them. */
  function DigitsOf(n: nat): (ds: Digits)
    ensures ds != []
  {
    if n < 10 then [ZERO + n] else DigitsOf(n / 10) + [ZERO + n % 10]
  }

  function PrintInt(n: int): bytes {
    if n < 0 then [MINUS] + DigitsOf(-n) else DigitsOf(n)
  }

  function PrintNumber(r: real): bytes
    requires IsInt32(r)
  {
    PrintInt(r.Floor)
  }

  /** The lower-case digits of %x. */
  function HexDigitOf(v: nat): (d: HexDigit)
    requires v < 16
  {
    if v < 10 then ZERO + v else 87 + v
  }

  predicate IsPlain(b: byte) {
    b >= 32 && b != QUOTE && b != BACKSLASH
  }

  /** How one byte of a string is written. */
  function Piece(b: byte, rest: Lit): Lit {
    if IsPlain(b) then Raw(b, rest)
    else if b == BACKSLASH || b == QUOTE then Esc(b, rest)
    else if b == BACKSPACE then Esc(LOWER_B, rest)
    else if b == FF then Esc(LOWER_F, rest)
    else if b == LF then Esc(LOWER_N, rest)
    else if b == CR then Esc(LOWER_R, rest)
    else if b == TAB then Esc(LOWER_T, rest)
    else Uni(ZERO, ZERO, HexDigitOf(b / 16), HexDigitOf(b % 16), rest)
  }

  function LitOf(s: bytes): Lit {
    if s == [] then End else Piece(s[0], LitOf(s[1..]))
  }

  /** The escaped form of one byte. */
  function EscapeByte(b: byte): bytes {
    if IsPlain(b) then [b]
    else if b == BACKSLASH || b == QUOTE then [BACKSLASH, b]
    else if b == BACKSPACE then [BACKSLASH, LOWER_B]
    else if b == FF then [BACKSLASH, LOWER_F]
    else if b == LF then [BACKSLASH, LOWER_N]
    else if b == CR then [BACKSLASH, LOWER_R]
    else if b == TAB then [BACKSLASH, LOWER_T]
    else [BACKSLASH, LOWER_U, ZERO, ZERO, HexDigitOf(b / 16), HexDigitOf(b % 16)]
  }

  function Escape(s: bytes): bytes {
    if s == [] then [] else Escape(s[..|s| - 1]) + EscapeByte(s[|s| - 1])
  }

  function PrintString(s: bytes): bytes {
    [QUOTE] + Escape(s) + [QUOTE]
  }

  // ---------- Values ----------

  function Tabs(n: int): bytes {
    if n <= 0 then [] else seq(n, _ => TAB)
  }

  function ElemSeparator(fmt: bool): bytes {
    if fmt then [COMMA, SPACE] else [COMMA]
  }

  function NameSeparator(fmt: bool): bytes {
    if fmt then [COLON, TAB] else [COLON]
  }

  function Indent(n: int, fmt: bool): bytes {
    if fmt then Tabs(n) else []
  }

  function LineBreak(fmt: bool): bytes {
    if fmt then [LF] else []
  }

  /** The text of a value at a nesting depth, formatted or not. */
  function Print(v: Json, depth: nat, fmt: bool): bytes
    requires Printable(v)
    decreases v, 0, 0
  {
    match v
    case Null => NULL_WORD
    case False => FALSE_WORD
    case True => TRUE_WORD
    case Number(r) => PrintNumber(r)
    case Str(s) => PrintString(s)
    case Array(items) =>
      [LBRACKET] + PrintItems(items, depth, fmt, |items|) + [RBRACKET]
    case Object(ms) =>
      if ms == [] then [LBRACE] + LineBreak(fmt) + Indent(depth - 1, fmt) + [RBRACE]
      else [LBRACE] + LineBreak(fmt) + PrintMembers(ms, depth + 1, fmt, |ms|) + Indent(depth, fmt) + [RBRACE]
  }

  /** The first n items, each but the last of all followed by a separator. */
  function PrintItems(items: seq<Json>, depth: nat, fmt: bool, n: nat): bytes
    requires n <= |items| && Printable(Array(items))
    decreases items, 1, n
  {
    if n == 0 then []
    else
      PrintItems(items, depth, fmt, n - 1) + Print(items[n - 1], depth + 1, fmt)
      + (if n == |items| then [] else ElemSeparator(fmt))
  }

  /** The first n members, one a line when formatted. */
  function PrintMembers(ms: seq<Member>, depth: nat, fmt: bool, n: nat): bytes
    requires n <= |ms| && Printable(Object(ms))
    decreases ms, 1, n
  {
    if n == 0 then []
    else
      PrintMembers(ms, depth, fmt, n - 1)
      + Indent(depth, fmt) + PrintString(ms[n - 1].name) + NameSeparator(fmt)
      + Print(ms[n - 1].value, depth, fmt)
      + (if n == |ms| then [] else [COMMA]) + LineBreak(fmt)
  }

  // ---------- Syntax trees ----------

  function NumeralOf(n: int): Numeral {
    if n == 0 then Numeral(false, true, [], [], NoExp)
    else Numeral(n < 0, false, DigitsOf(if n < 0 then -n else n), [], NoExp)
  }

  function CstOf(v: Json, depth: nat, fmt: bool): Cst
    requires Printable(v)
    decreases v, 0, 0
  {
    match v
    case Null => CNull
    case False => CFalse
    case True => CTrue
    case Number(r) => CNumber(NumeralOf(r.Floor))
    case Str(s) => CString(LitOf(s))
    case Array(items) => if items == [] then CNoElems([]) else CArray(ElemsOf(items, depth, fmt, 0))
    case Object(ms) =>
      if ms == [] then CNoMembers(LineBreak(fmt) + Indent(depth - 1, fmt))
      else CObject(MembersOf(ms, depth + 1, fmt, 0))
  }

  function ElemsOf(items: seq<Json>, depth: nat, fmt: bool, i: nat): Elems
    requires i < |items| && Printable(Array(items))
    decreases items, 1, |items| - i
  {
    var before: bytes := if i > 0 && fmt then [SPACE] else [];
    var value := CstOf(items[i], depth + 1, fmt);
    if i + 1 == |items| then LastElem(before, value, [])
    else MoreElems(before, value, [], ElemsOf(items, depth, fmt, i + 1))
  }

  function MembersOf(ms: seq<Member>, depth: nat, fmt: bool, i: nat): Members
    requires i < |ms| && Printable(Object(ms))
    decreases ms, 1, |ms| - i
  {
    var name := Name(LineBreak(fmt) + Indent(depth, fmt), LitOf(ms[i].name), [], if fmt then [TAB] else []);
    var value := CstOf(ms[i].value, depth, fmt);
    if i + 1 == |ms| then LastPair(name, value, LineBreak(fmt) + Indent(depth - 1, fmt))
    else MorePairs(name, value, [], MembersOf(ms, depth, fmt, i + 1))
  }
}
