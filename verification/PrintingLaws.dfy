/** The printed text, character by character. */
module PrintingLaws {
  import opened Bytes
  import opened Values
  import opened Printing
  import opened PrintingTheorems
  import opened RfcTheorems
  import opened Rfc8259
  import opened Nodes
  import opened Joining

  function Tabbed(n: nat): bytes {
    seq(n, _ => 0x09)
  }

  lemma Marked(fmt: bool)
    ensures ElemSeparator(fmt) == (if fmt then Ascii(", ") else Ascii(","))
    ensures NameSeparator(fmt) == (if fmt then Ascii(":\t") else Ascii(":"))
    ensures LineBreak(fmt) == (if fmt then Ascii("\n") else []) && Ascii(",\n") == [COMMA, LF]
  {
  }

  lemma IndentIs(n: nat, fmt: bool)
    ensures Indent(n, fmt) == if fmt then Tabbed(n) else []
  {
  }

  // ---------- Arrays ----------

  function ItemTexts(items: seq<Json>, depth: nat, fmt: bool): (ts: seq<bytes>)
    requires Printable(Array(items))
    ensures |ts| == |items|
  {
    seq(|items|, i requires 0 <= i < |items| => Print(items[i], depth + 1, fmt))
  }

  /** The first n parts, with a separator behind all but the last of all. */
  function Behind(parts: seq<bytes>, sep: bytes, n: nat): bytes
    requires n <= |parts|
  {
    if n == 0 then [] else Behind(parts, sep, n - 1) + parts[n - 1] + if n == |parts| then [] else sep
  }

  lemma {:induction false} BehindFirst(parts: seq<bytes>, sep: bytes, n: nat)
    requires 0 < n <= |parts| && |parts| > 1
    ensures Behind(parts, sep, n) == parts[0] + sep + Behind(parts[1..], sep, n - 1)
  {
    if n > 1 {
      BehindFirst(parts, sep, n - 1);
      assert parts[1..][n - 2] == parts[n - 1];
      Regrouped(parts[0] + sep, Behind(parts[1..], sep, n - 2), parts[n - 1], if n == |parts| then [] else sep);
    } else {
      assert Behind(parts, sep, 1) == [] + parts[0] + sep;
    }
  }

  lemma Regrouped(a: bytes, b: bytes, c: bytes, d: bytes)
    ensures a + b + c + d == a + (b + c + d)
  {
  }

  lemma {:induction false} BehindIsChain(parts: seq<bytes>, sep: bytes)
    ensures Behind(parts, sep, |parts|) == Chain(parts, sep)
  {
    if |parts| > 1 {
      BehindFirst(parts, sep, |parts|);
      BehindIsChain(parts[1..], sep);
    } else if |parts| == 1 {
      assert Behind(parts, sep, 1) == [] + parts[0] + [];
    }
  }

  lemma {:induction false} ItemsBehind(items: seq<Json>, depth: nat, fmt: bool, n: nat)
    requires n <= |items| && Printable(Array(items))
    ensures PrintItems(items, depth, fmt, n) == Behind(ItemTexts(items, depth, fmt), ElemSeparator(fmt), n)
  {
    hide Print;
    if n > 0 {
      ItemsBehind(items, depth, fmt, n - 1);
    }
  }

  /** Comma, and a space when formatted, between the elements; everything on one line. */
  lemma ArrayShape(items: seq<Json>, depth: nat, fmt: bool)
    requires Printable(Array(items))
    ensures Print(Array(items), depth, fmt) ==
      Ascii("[") + Chain(ItemTexts(items, depth, fmt), if fmt then Ascii(", ") else Ascii(",")) + Ascii("]")
  {
    Marked(fmt);
    Tokens();
    ItemsBehind(items, depth, fmt, |items|);
    BehindIsChain(ItemTexts(items, depth, fmt), ElemSeparator(fmt));
    assert Print(Array(items), depth, fmt) == [LBRACKET] + PrintItems(items, depth, fmt, |items|) + [RBRACKET];
    hide Print, Ascii, PrintItems;
  }

  // ---------- Objects ----------

  /** A member's name and value, at its tabs when formatted. */
  function MemberTexts(ms: seq<Member>, depth: nat, fmt: bool): (ts: seq<bytes>)
    requires Printable(Object(ms))
    ensures |ts| == |ms|
  {
    seq(|ms|, i requires 0 <= i < |ms| =>
      (if fmt then Tabbed(depth + 1) else []) + PrintString(ms[i].name)
      + (if fmt then Ascii(":\t") else Ascii(":")) + Print(ms[i].value, depth + 1, fmt))
  }

  lemma MemberTextAt(ms: seq<Member>, depth: nat, fmt: bool, i: nat)
    requires i < |ms| && Printable(Object(ms))
    ensures MemberTexts(ms, depth, fmt)[i] ==
      Indent(depth + 1, fmt) + PrintString(ms[i].name) + NameSeparator(fmt) + Print(ms[i].value, depth + 1, fmt)
  {
    hide Print, PrintString, Ascii;
    Marked(fmt);
    IndentIs(depth + 1, fmt);
  }

  lemma {:induction false} MembersBehind(ms: seq<Member>, depth: nat, fmt: bool, n: nat)
    requires n <= |ms| && Printable(Object(ms))
    ensures PrintMembers(ms, depth + 1, fmt, n) ==
      Behind(MemberTexts(ms, depth, fmt), [COMMA] + LineBreak(fmt), n) + if n == |ms| > 0 then LineBreak(fmt) else []
  {
    hide Print, PrintString, PrintMembers, Indent, LineBreak, NameSeparator, MemberTexts;
    if n > 0 {
      MembersBehind(ms, depth, fmt, n - 1);
      MembersUnfold(ms, depth + 1, fmt, n);
      MemberTextAt(ms, depth, fmt, n - 1);
      MemberBehind(PrintMembers(ms, depth + 1, fmt, n - 1), Indent(depth + 1, fmt), PrintString(ms[n - 1].name),
        NameSeparator(fmt), Print(ms[n - 1].value, depth + 1, fmt), LineBreak(fmt), n == |ms|);
    } else {
      MembersNone(ms, depth + 1, fmt);
    }
  }

  lemma MemberBehind(h: bytes, a: bytes, b: bytes, c: bytes, d: bytes, l: bytes, last: bool)
    ensures h + a + b + c + d + (if last then [] else [COMMA]) + l ==
            h + (a + b + c + d) + (if last then [] else [COMMA] + l) + (if last then l else [])
  {
  }

  lemma Closing(a: bytes, x: bytes, l: bytes, i: bytes, r: bytes)
    ensures a + (x + l) + i + r == a + x + l + i + r
  {
  }

  lemma OneLine(a: bytes, x: bytes, r: bytes)
    ensures a + [] + x + [] + [] + r == a + x + r
  {
  }

  lemma ObjectText(ms: seq<Member>, depth: nat, fmt: bool)
    requires Printable(Object(ms)) && ms != []
    ensures Print(Object(ms), depth, fmt) ==
      [LBRACE] + LineBreak(fmt) + Chain(MemberTexts(ms, depth, fmt), [COMMA] + LineBreak(fmt)) + LineBreak(fmt)
      + Indent(depth, fmt) + [RBRACE]
  {
    hide MemberTexts, Chain, PrintMembers, LineBreak, Indent, Behind;
    var l, x := LineBreak(fmt), Chain(MemberTexts(ms, depth, fmt), [COMMA] + LineBreak(fmt));
    MembersBehind(ms, depth, fmt, |ms|);
    BehindIsChain(MemberTexts(ms, depth, fmt), [COMMA] + l);
    Closing([LBRACE] + l, x, l, Indent(depth, fmt), [RBRACE]);
  }

  /** Every member on a line of its own at one tab more than the object, or everything on one line. */
  lemma ObjectShape(ms: seq<Member>, depth: nat, fmt: bool)
    requires Printable(Object(ms)) && ms != []
    ensures Print(Object(ms), depth, fmt) ==
      if fmt
      then Ascii("{\n") + Chain(MemberTexts(ms, depth, fmt), Ascii(",\n")) + Ascii("\n") + Tabbed(depth) + Ascii("}")
      else Ascii("{") + Chain(MemberTexts(ms, depth, fmt), Ascii(",")) + Ascii("}")
  {
    Marked(fmt);
    Tokens();
    IndentIs(depth, fmt);
    Braces();
    hide Print, Ascii, MemberTexts, Chain, Indent, LineBreak, Tabbed;
    ObjectText(ms, depth, fmt);
    var sep := [COMMA] + LineBreak(fmt);
    assert sep == if fmt then Ascii(",\n") else Ascii(",");
    OneLine([LBRACE], Chain(MemberTexts(ms, depth, fmt), sep), [RBRACE]);
  }

  lemma Braces()
    ensures Ascii("{\n") == [LBRACE] + Ascii("\n") && Ascii(",\n") == [COMMA] + Ascii("\n")
  {
  }

  lemma NoMembersShape(depth: nat, fmt: bool)
    ensures Print(Object([]), depth, fmt) ==
      if fmt then Ascii("{\n") + Tabbed(if depth > 0 then depth - 1 else 0) + Ascii("}") else Ascii("{}")
  {
    Marked(fmt);
    Tokens();
    Braces();
    assert Ascii("{}") == [LBRACE, RBRACE];
    hide Ascii;
    if depth > 0 {
      IndentIs(depth - 1, fmt);
    }
  }

  /** The nodes without contents are their words. */
  lemma WordShape(t: Tree, depth: nat, fmt: bool)
    requires Ready(t)
    ensures t.kind == KNull ==> Text(t, depth, fmt) == Ascii("null")
    ensures t.kind == KTrue ==> Text(t, depth, fmt) == Ascii("true")
    ensures t.kind == KFalse ==> Text(t, depth, fmt) == Ascii("false")
  {
    Tokens();
    LeafText(t, depth, fmt);
    hide Ascii, Text;
  }

  // ---------- What can be printed ----------

  /** An integer can be printed if and only if it has 32 bits, and no other number can. */
  lemma IntegersExactly(n: int, r: real)
    ensures Printable(Number(n as real)) <==> -2147483648 <= n <= 2147483647
    ensures Printable(Number(r)) ==> r == r.Floor as real
  {
  }

  /** A string can if it has no NUL, an array or object if all that is in it can. */
  lemma PrintableExactly(v: Json)
    ensures v.Str? ==> (Printable(v) <==> 0 !in v.text)
    ensures v.Array? ==> (Printable(v) <==> forall i | 0 <= i < |v.items| :: Printable(v.items[i]))
    ensures v.Object? ==>
      (Printable(v) <==> forall i | 0 <= i < |v.members| :: 0 !in v.members[i].name && Printable(v.members[i].value))
    ensures v.Null? || v.True? || v.False? ==> Printable(v)
  {
  }

  // ---------- Strings and numbers ----------

  /** A byte is written as itself unless it is a control byte, a quote or a backslash; then in two characters where
      the standard has such an escape, else by its number in lower-case digits. */
  lemma ByteShape(b: byte)
    requires b != 0
    ensures b >= 0x20 && b != 0x22 && b != 0x5C ==> EscapeByte(b) == [b]
    ensures forall c: byte | IsShort(c, b) && c != '/' as int :: EscapeByte(b) == [0x5C, c]
    ensures b < 0x20 && b !in {0x08, 0x09, 0x0A, 0x0C, 0x0D} ==>
      EscapeByte(b) == Ascii("\\u00") + [Ascii("0123456789abcdef")[b / 16], Ascii("0123456789abcdef")[b % 16]]
  {
    if b < 0x20 {
      assert EscapeByte(b) == [BACKSLASH, LOWER_U, ZERO, ZERO, HexDigitOf(b / 16), HexDigitOf(b % 16)]
        || b in {0x08, 0x09, 0x0A, 0x0C, 0x0D};
      assert Ascii("\\u00") == [BACKSLASH, LOWER_U, ZERO, ZERO];
    }
  }

  /** An integer is its decimal digits without leading zeros, behind a minus sign when it is negative. */
  lemma IntegerShape(n: int)
    ensures var t := PrintInt(n); var ds := if n < 0 then t[1..] else t;
      && (n < 0 ==> t[0] == '-' as int)
      && DigitBytes(ds) && Decimal(ds) == (if n < 0 then -n else n) && (|ds| > 1 ==> ds[0] != 0x30)
  {
    var a := if n < 0 then -n else n;
    hide DigitsOf, NatOf, Decimal;
    DigitsValue(a);
    NatIsDecimal(DigitsOf(a));
    if n < 0 {
      assert PrintInt(n)[1..] == DigitsOf(a);
    }
    OneZero(a);
  }

  lemma OneZero(a: nat)
    ensures a == 0 ==> |DigitsOf(a)| == 1
  {
  }
}
