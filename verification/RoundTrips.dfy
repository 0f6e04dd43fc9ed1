/** The operations on memory one after the other: print and parse, print and minify. */
module RoundTrips {
  import opened Bytes
  import opened Values
  import opened Syntax
  import opened Rfc8259
  import opened RfcTheorems
  import P = Parsing
  import opened Printing
  import opened PrintingTheorems
  import M = Minifying
  import opened MinifyingTheorems
  import opened Nodes
  import opened Pictures
  import opened Buffers
  import opened Joining
  import opened AllocPrinting
  import opened TreeParsing
  import opened Duplicating

  /** A C string read out of memory. */
  lemma ReadBack(a: array<byte>, s: bytes)
    requires Wrote(a, [], s) && NulFree(s)
    ensures |s| < a.Length && a[..|s| + 1] == Terminated(s)
  {
  }

  /** Parsing what a tree's text says gives its value back. */
  lemma TextParses(t: Tree, fmt: bool)
    requires Ready(t)
    ensures NulFree(Text(t, 0, fmt)) && Typed(t)
    ensures var r := P.ParseDoc(Terminated(Text(t, 0, fmt)), true);
      r.Ok? && r.end == |Text(t, 0, fmt)| && Meaning(r.value.value) == Value(t)
  {
    ReadyPrintable(t);
    RoundTrip(Value(t), 0, fmt);
  }

  lemma BuiltShown(u: Tree)
    requires WellBuilt(u)
    ensures Shown(u) == Owned(u)
  {
    PlainShown(u);
  }

  /** Freeing a block leaves the nodes of a tree as they are. */
  method Release(heap: Heap, a: array<byte>, ghost u: Tree)
    requires a in heap.live && WellBuilt(u)
    modifies heap
    ensures WellBuilt(u) && heap.live == old(heap.live) - {a}
  {
    ReachAllocated(u);
    ReachKids(u);
    hide WellBuilt, Reach, ReachAll;
    heap.Free(a);
  }

  /** A text that stands for a value by RFC 8259 comes out as a tree in memory with that value, read to its end. */
  method ParseStandard(parser: Parser, z: CString, ghost v: Json) returns (c: Node?, end: nat, ghost u: Tree)
    requires IsText(z[..|z| - 1], v)
    modifies parser.heap, parser
    ensures c != null && c == u.node && WellBuilt(u) && Typed(u) && Value(u) == v
    ensures end == |z| - 1 && parser.ep == NoError
    ensures fresh(Owned(u)) && parser.heap.live == old(parser.heap.live) + Owned(u)
  {
    hide IsText, P.ParseDoc, Meaning, Value, Typed, WellBuilt, Owned;
    Reads(z[..|z| - 1], v);
    assert Terminated(z[..|z| - 1]) == z;
    c, end, u := parser.ParseWithOpts(z, true);
  }

  /** Parsing a text and printing the tree gives a text for the same value, whatever the first looked like. */
  method ParseAndPrint(parser: Parser, z: CString, fmt: bool, ghost v: Json) returns (out: array<byte>, ghost u: Tree)
    requires IsText(z[..|z| - 1], v) && Printable(v)
    modifies parser.heap, parser
    ensures WellBuilt(u) && Typed(u) && Value(u) == v && fresh(Owned(u)) && fresh(out)
    ensures parser.heap.live == old(parser.heap.live) + Owned(u) + {out}
    ensures Wrote(out, [], Print(v, 0, fmt)) && IsText(Print(v, 0, fmt), v)
  {
    hide IsText, Value, Typed, WellBuilt, Owned, Wrote, Print, Printable, Shown, Seen, Ready, Reach, ReachAll;
    var c, end;
    c, end, u := ParseStandard(parser, z, v);
    BuiltShown(u);
    BuiltSeen(u);
    PrintableReady(u);
    ReachAllocated(u);
    ReachKids(u);
    out := PrintItem(parser.heap, c, fmt, u);
    Prints(v, 0, fmt);
  }

  lemma BuiltSeen(u: Tree)
    requires WellBuilt(u)
    ensures Seen(u)
  {
    PlainSeen(u);
  }

  /** Any printable tree, printed in either format and parsed again, comes back as a new tree of its own with the
      same value; the text is consumed to its end and no error is left. */
  method PrintAndParse(parser: Parser, item: Node, fmt: bool, ghost t: Tree) returns (c: Node?, end: nat, ghost u: Tree)
    requires item == t.node && Seen(t) && Ready(t) && Shown(t) <= parser.heap.live
    modifies parser.heap, parser
    ensures c != null && c == u.node && WellBuilt(u) && Typed(t) && Typed(u) && Value(u) == Value(t)
    ensures end == |Text(t, 0, fmt)| && parser.ep == NoError
    ensures fresh(Owned(u)) && parser.heap.live == old(parser.heap.live) + Owned(u) && Shown(u) == Owned(u)
  {
    hide Seen, Ready, Text, Shown, P.ParseDoc, Meaning, Value, Typed, WellBuilt, Owned, Wrote;
    TextParses(t, fmt);
    ghost var text := Text(t, 0, fmt);
    var out := PrintItem(parser.heap, item, fmt, t);
    ReadBack(out, text);
    var n := StrLen(out, 0, [], text);
    var z := out[..n + 1];
    c, end, u := parser.ParseWithOpts(z, true);
    BuiltShown(u);
    Release(parser.heap, out, u);
  }

  /** The printed text, minified where it stands, is the unformatted text. */
  method PrintAndMinify(heap: Heap, item: Node, fmt: bool, ghost t: Tree) returns (out: array<byte>)
    requires item == t.node && Seen(t) && Ready(t) && Shown(t) <= heap.live
    modifies heap
    ensures fresh(out) && heap.live == old(heap.live) + {out} && Wrote(out, [], Text(t, 0, false))
  {
    TextMinified(t, fmt);
    hide Seen, Ready, M.Minify, Text, Wrote, NulFree, Shown;
    ghost var text := Text(t, 0, fmt);
    out := PrintItem(heap, item, fmt, t);
    ReadBack(out, text);
    M.MinifyInPlace(out, Terminated(text));
    Holding(out, Text(t, 0, false));
  }

  lemma TextMinified(t: Tree, fmt: bool)
    requires Ready(t)
    ensures NulFree(Text(t, 0, fmt))
    ensures M.Minify(Terminated(Text(t, 0, fmt)), 0) == M.Text(Text(t, 0, false))
  {
    ReadyPrintable(t);
    MinifiedPrint(Value(t), 0, fmt);
  }

  lemma Holding(a: array<byte>, s: bytes)
    requires |s| < a.Length && a[..|s|] == s && a[|s|] == 0
    ensures Wrote(a, [], s)
  {
  }

  /** A copy prints as its original does. */
  lemma CopyPrints(t: Tree, u: Tree, depth: nat, fmt: bool)
    requires Copies(t, u) && Ready(t)
    ensures Ready(u) && Text(u, depth, fmt) == Text(t, depth, fmt)
  {
    ReadyPrintable(t);
    CopyValue(t, u);
    CopyReady(t, u);
  }

  lemma {:induction false} CopyReady(t: Tree, u: Tree)
    requires Copies(t, u) && Ready(t)
    ensures Ready(u)
  {
    match t.kind
    case KArray =>
      forall i | 0 <= i < |u.kids| ensures Ready(u.kids[i]) {
        CopyReady(t.kids[i], u.kids[i]);
      }
    case KObject =>
      forall i | 0 <= i < |u.kids| ensures u.kids[i].name != null && Ready(u.kids[i]) {
        assert Copies(t.kids[i], u.kids[i]);
        CopyReady(t.kids[i], u.kids[i]);
      }
    case _ =>
  }
}
