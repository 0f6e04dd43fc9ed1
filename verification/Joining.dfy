/** How the texts of children are joined, and how much room the printer sets aside for them. */
module Joining {
  import opened Bytes
  import opened Values
  import opened Printing
  import opened Nodes
  import opened PrintingTheorems

  /** A tree the integer printer can print: strings and names are there, every number is a 32-bit integer and
      its two fields agree. */
  ghost predicate Ready(t: Tree) {
    match t.kind
    case KNumber => IsInt32(t.number) && t.whole == t.number.Floor
    case KString => t.text != null
    case KArray => forall i | 0 <= i < |t.kids| :: Ready(t.kids[i])
    case KObject => forall i | 0 <= i < |t.kids| :: t.kids[i].name != null && Ready(t.kids[i])
    case _ => true
  }

  ghost predicate ReadyAll(ts: seq<Tree>) {
    forall i | 0 <= i < |ts| :: Ready(ts[i])
  }

  ghost predicate NamedAll(ts: seq<Tree>) {
    forall i | 0 <= i < |ts| :: ts[i].name != null
  }

  lemma {:induction false} ReadyPrintable(t: Tree)
    requires Ready(t)
    ensures Typed(t) && Printable(Value(t))
  {
    match t.kind
    case KNumber => TruncatedIs(t.number);
    case KArray =>
      forall i | 0 <= i < |t.kids| ensures Typed(t.kids[i]) && Printable(Value(t.kids[i])) {
        ReadyPrintable(t.kids[i]);
      }
    case KObject =>
      forall i | 0 <= i < |t.kids| ensures Typed(t.kids[i]) && Printable(Value(t.kids[i])) {
        ReadyPrintable(t.kids[i]);
      }
    case _ =>
  }

  lemma {:induction false} PrintableReady(t: Tree)
    requires Typed(t) && Printable(Value(t))
    ensures Ready(t)
  {
    match t.kind
    case KNumber => TruncatedIs(t.number);
    case KArray =>
      forall i | 0 <= i < |t.kids| ensures Ready(t.kids[i]) {
        assert Value(t).items[i] == Value(t.kids[i]);
        PrintableReady(t.kids[i]);
      }
    case KObject =>
      forall i | 0 <= i < |t.kids| ensures Ready(t.kids[i]) {
        assert Value(t).members[i] == Member(t.kids[i].name.s, Value(t.kids[i]));
        PrintableReady(t.kids[i]);
      }
    case _ =>
  }

  /** A tree can be printed if and only if it has a value that can. */
  lemma ReadyExactly(t: Tree)
    ensures Ready(t) <==> Typed(t) && Printable(Value(t))
  {
    if Ready(t) {
      ReadyPrintable(t);
    }
    if Typed(t) && Printable(Value(t)) {
      PrintableReady(t);
    }
  }

  /** The text of a tree. */
  ghost function Text(t: Tree, depth: nat, fmt: bool): bytes
    requires Ready(t)
  {
    ReadyPrintable(t);
    Print(Value(t), depth, fmt)
  }

  lemma FieldsShown(t: Tree)
    requires Seen(t)
    ensures t.node.kind == t.kind && t.node.valuestring == t.text
    ensures t.node.valueint == t.whole && t.node.valuedouble == t.number
  {
  }

  lemma LeafText(t: Tree, depth: nat, fmt: bool)
    requires Ready(t)
    ensures match t.kind
      case KNull => Text(t, depth, fmt) == NULL_WORD
      case KFalse => Text(t, depth, fmt) == FALSE_WORD
      case KTrue => Text(t, depth, fmt) == TRUE_WORD
      case KNumber => Text(t, depth, fmt) == PrintInt(t.whole)
      case KString => Text(t, depth, fmt) == PrintString(t.text.s)
      case _ => true
  {
  }

  lemma TextNulFree(t: Tree, depth: nat, fmt: bool)
    requires Ready(t)
    ensures NulFree(Text(t, depth, fmt))
  {
    ReadyPrintable(t);
    PrintNulFree(Value(t), depth, fmt);
  }

  lemma NameNulFree(s: bytes)
    requires NulFree(s)
    ensures NulFree(PrintString(s))
  {
    PrintNulFree(Str(s), 0, false);
  }

  ghost function KidTexts(ts: seq<Tree>, depth: nat, fmt: bool): (texts: seq<bytes>)
    requires ReadyAll(ts)
    ensures |texts| == |ts| && forall i | 0 <= i < |ts| :: texts[i] == Text(ts[i], depth, fmt)
  {
    seq(|ts|, i requires 0 <= i < |ts| => Text(ts[i], depth, fmt))
  }

  ghost function NameTexts(ts: seq<Tree>): (names: seq<bytes>)
    requires NamedAll(ts)
    ensures |names| == |ts| && forall i | 0 <= i < |ts| :: names[i] == PrintString(ts[i].name.s)
  {
    seq(|ts|, i requires 0 <= i < |ts| => PrintString(ts[i].name.s))
  }

  // ---------- Arrays ----------

  /** The first n texts, each but the last of all followed by a separator. */
  function JoinItems(texts: seq<bytes>, fmt: bool, n: nat): bytes
    requires n <= |texts|
  {
    if n == 0 then []
    else JoinItems(texts, fmt, n - 1) + texts[n - 1] + (if n == |texts| then [] else ElemSeparator(fmt))
  }

  lemma {:induction false} ItemsJoined(ts: seq<Tree>, depth: nat, fmt: bool, n: nat)
    requires ReadyAll(ts) && n <= |ts|
    ensures TypedItems(ts) && Printable(Array(ItemValues(ts)))
    ensures JoinItems(KidTexts(ts, depth + 1, fmt), fmt, n) == PrintItems(ItemValues(ts), depth, fmt, n)
  {
    forall i | 0 <= i < |ts| ensures Typed(ts[i]) && Printable(Value(ts[i])) {
      ReadyPrintable(ts[i]);
    }
    if n > 0 {
      ItemsJoined(ts, depth, fmt, n - 1);
    }
  }

  lemma ArrayJoined(t: Tree, depth: nat, fmt: bool)
    requires t.kind == KArray && Ready(t)
    ensures Text(t, depth, fmt) == [LBRACKET] + JoinItems(KidTexts(t.kids, depth + 1, fmt), fmt, |t.kids|) + [RBRACKET]
  {
    ReadyPrintable(t);
    ItemsJoined(t.kids, depth, fmt, |t.kids|);
    ArrayValue(t);
  }

  /** The room print_array sets aside for the first n entries. */
  function ItemsRoom(texts: seq<bytes>, fmt: bool, n: nat): nat
    requires n <= |texts|
  {
    if n == 0 then 5 else ItemsRoom(texts, fmt, n - 1) + |texts[n - 1]| + 2 + (if fmt then 1 else 0)
  }

  lemma {:induction false} ItemsFit(texts: seq<bytes>, fmt: bool, n: nat)
    requires n <= |texts|
    ensures |JoinItems(texts, fmt, n)| + 5 <= ItemsRoom(texts, fmt, n)
  {
    if n > 0 {
      ItemsFit(texts, fmt, n - 1);
    }
  }

  lemma {:induction false} ItemsGrow(texts: seq<bytes>, fmt: bool, n: nat, m: nat)
    requires n <= m <= |texts|
    ensures |JoinItems(texts, fmt, n)| <= |JoinItems(texts, fmt, m)|
  {
    if n < m {
      ItemsGrow(texts, fmt, n, m - 1);
    }
  }

  // ---------- Objects ----------

  function MemberText(name: bytes, text: bytes, depth: nat, fmt: bool, last: bool): bytes {
    Indent(depth, fmt) + name + NameSeparator(fmt) + text + (if last then [] else [COMMA]) + LineBreak(fmt)
  }

  function JoinMembers(names: seq<bytes>, texts: seq<bytes>, depth: nat, fmt: bool, n: nat): bytes
    requires n <= |texts| == |names|
  {
    if n == 0 then []
    else
      JoinMembers(names, texts, depth, fmt, n - 1) + MemberText(names[n - 1], texts[n - 1], depth, fmt, n == |texts|)
  }

  lemma {:induction false} MembersJoined(ts: seq<Tree>, depth: nat, fmt: bool, n: nat)
    requires ReadyAll(ts) && NamedAll(ts) && n <= |ts|
    ensures TypedMembers(ts) && Printable(Object(MemberValues(ts)))
    ensures JoinMembers(NameTexts(ts), KidTexts(ts, depth, fmt), depth, fmt, n)
      == PrintMembers(MemberValues(ts), depth, fmt, n)
  {
    hide *;
    MembersPrintable(ts);
    if n > 0 {
      MembersJoined(ts, depth, fmt, n - 1);
      MemberUnfold(ts, depth, fmt, n);
      JoinUnfold(NameTexts(ts), KidTexts(ts, depth, fmt), depth, fmt, n);
    } else {
      MembersNone(MemberValues(ts), depth, fmt);
      JoinNone(NameTexts(ts), KidTexts(ts, depth, fmt), depth, fmt);
    }
  }

  lemma MembersPrintable(ts: seq<Tree>)
    requires ReadyAll(ts) && NamedAll(ts)
    ensures TypedMembers(ts) && Printable(Object(MemberValues(ts)))
  {
    forall i | 0 <= i < |ts| ensures Typed(ts[i]) && Printable(Value(ts[i])) {
      ReadyPrintable(ts[i]);
    }
  }

  lemma JoinUnfold(names: seq<bytes>, texts: seq<bytes>, depth: nat, fmt: bool, n: nat)
    requires 0 < n <= |texts| == |names|
    ensures JoinMembers(names, texts, depth, fmt, n)
      == JoinMembers(names, texts, depth, fmt, n - 1) + MemberText(names[n - 1], texts[n - 1], depth, fmt, n == |texts|)
  {
  }

  lemma JoinNone(names: seq<bytes>, texts: seq<bytes>, depth: nat, fmt: bool)
    requires |texts| == |names|
    ensures JoinMembers(names, texts, depth, fmt, 0) == []
  {
  }

  lemma MemberUnfold(ts: seq<Tree>, depth: nat, fmt: bool, n: nat)
    requires ReadyAll(ts) && NamedAll(ts) && 0 < n <= |ts| && TypedMembers(ts) && Printable(Object(MemberValues(ts)))
    ensures PrintMembers(MemberValues(ts), depth, fmt, n) == PrintMembers(MemberValues(ts), depth, fmt, n - 1)
      + MemberText(PrintString(ts[n - 1].name.s), Text(ts[n - 1], depth, fmt), depth, fmt, n == |ts|)
  {
    var ms := MemberValues(ts);
    assert ms[n - 1] == Member(ts[n - 1].name.s, Value(ts[n - 1]));
    hide Print, PrintString, Printable, Value, Typed, PrintMembers, Indent, NameSeparator, LineBreak;
    MembersUnfold(ms, depth, fmt, n);
    Regrouped(PrintMembers(ms, depth, fmt, n - 1), Indent(depth, fmt), PrintString(ms[n - 1].name), NameSeparator(fmt),
      Print(ms[n - 1].value, depth, fmt), if n == |ms| then [] else [COMMA], LineBreak(fmt));
  }

  lemma Regrouped(x: bytes, a: bytes, b: bytes, c: bytes, d: bytes, e: bytes, f: bytes)
    ensures x + a + b + c + d + e + f == x + (a + b + c + d + e + f)
  {
  }

  /** The members between braces; depth is that of the closing brace. */
  function Braced(body: bytes, depth: int, fmt: bool): bytes {
    [LBRACE] + LineBreak(fmt) + body + Indent(depth, fmt) + [RBRACE]
  }

  lemma ObjectJoined(t: Tree, depth: nat, fmt: bool)
    requires t.kind == KObject && Ready(t)
    ensures t.kids == [] ==> Text(t, depth, fmt) == Braced([], depth - 1, fmt)
    ensures t.kids != [] ==>
      Text(t, depth, fmt)
        == Braced(JoinMembers(NameTexts(t.kids), KidTexts(t.kids, depth + 1, fmt), depth + 1, fmt, |t.kids|),
                  depth, fmt)
  {
    ReadyPrintable(t);
    MembersJoined(t.kids, depth + 1, fmt, |t.kids|);
    ObjectValue(t);
    assert t.kids == [] <==> MemberValues(t.kids) == [];
    assert [LBRACE] + LineBreak(fmt) + [] == [LBRACE] + LineBreak(fmt);
  }

  /** The room print_object sets aside for the first n members; depth is that of the members. */
  function MembersRoom(names: seq<bytes>, texts: seq<bytes>, depth: nat, fmt: bool, n: nat): nat
    requires n <= |texts| == |names|
  {
    if n == 0 then 7 + (if fmt then depth else 0)
    else
      MembersRoom(names, texts, depth, fmt, n - 1) + |texts[n - 1]| + |names[n - 1]| + 2
      + (if fmt then 2 + depth else 0)
  }

  lemma {:induction false} MembersFit(names: seq<bytes>, texts: seq<bytes>, depth: nat, fmt: bool, n: nat)
    requires n <= |texts| == |names|
    ensures |JoinMembers(names, texts, depth, fmt, n)| + 7 + (if fmt then depth else 0)
      <= MembersRoom(names, texts, depth, fmt, n)
  {
    if n > 0 {
      MembersFit(names, texts, depth, fmt, n - 1);
    }
  }

  lemma {:induction false} MembersGrow(names: seq<bytes>, texts: seq<bytes>, depth: nat, fmt: bool, n: nat, m: nat)
    requires n <= m <= |texts| == |names|
    ensures |JoinMembers(names, texts, depth, fmt, n)| <= |JoinMembers(names, texts, depth, fmt, m)|
  {
    if n < m {
      MembersGrow(names, texts, depth, fmt, n, m - 1);
    }
  }

  lemma MemberSplit(head: bytes, nms: seq<bytes>, texts: seq<bytes>, depth: nat, fmt: bool, i: nat)
    requires i < |texts| == |nms|
    ensures head + JoinMembers(nms, texts, depth, fmt, i + 1) == head + JoinMembers(nms, texts, depth, fmt, i)
      + MemberText(nms[i], texts[i], depth, fmt, i + 1 == |texts|)
  {
    JoinUnfold(nms, texts, depth, fmt, i + 1);
    hide *;
  }
}
