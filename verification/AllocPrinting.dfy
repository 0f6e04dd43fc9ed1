/** The printer that allocates every piece of text: print_value, print_array and print_object without a
    print buffer. What is printed must still be live: every block that is read is. */
module AllocPrinting {
  import opened Bytes
  import opened Printing
  import opened Buffers
  import opened StringPrinting
  import opened Nodes
  import opened Lists
  import opened Joining

  // ---------- Leaves ----------

  method PrintStringPtr(heap: Heap, str: CStr) returns (out: array<byte>)
    requires str in heap.live
    modifies heap
    ensures fresh(out) && heap.live == old(heap.live) + {out}
    ensures Wrote(out, [], PrintString(str.s)) && out.Length == |PrintString(str.s)| + 1
  {
    var z := Terminated(str.s);
    assert Body(z) == str.s;
    var len;
    var flag := NeedsEscape(z);
    if flag {
      len := MeasureEscaped(z);
    } else {
      PlainEscape(str.s);
      len := |z| - 1;
    }
    out := heap.NewBytes(len + 3);
    assert out[..0] == [];
    WriteString(out, 0, z, flag);
  }

  /** The branches for zero and for integers. */
  method PrintNumberNew(heap: Heap, item: Node, ghost t: Tree) returns (out: array<byte>)
    requires item.valuedouble == t.number && item.valueint == t.whole && t.kind == KNumber && Ready(t)
    requires item in heap.live
    modifies heap
    ensures fresh(out) && heap.live == old(heap.live) + {out} && Wrote(out, [], PrintInt(t.whole))
  {
    IntLength(t.whole);
    var d := item.valuedouble;
    if d == 0.0 {
      out := heap.NewBytes(2);
      assert out[..0] == [];
      PutString(out, 0, [ZERO]);
    } else {
      out := heap.NewBytes(21);
      assert out[..0] == [];
      PutString(out, 0, PrintInt(item.valueint));
    }
  }

  // ---------- Arrays ----------

  ghost function Blocks(es: seq<array<byte>>): set<object> {
    set i | 0 <= i < |es| :: es[i]
  }

  lemma BlocksStep(es: seq<array<byte>>, i: nat)
    requires i < |es|
    ensures Blocks(es[..i + 1]) == Blocks(es[..i]) + {es[i]} && es[i] in Blocks(es) && Blocks(es[..|es|]) == Blocks(es)
    ensures (forall j, k | 0 <= j < k < |es| :: es[j] != es[k]) ==> es[i] !in Blocks(es[..i])
  {
    assert es[..|es|] == es;
    assert es[..i + 1] == es[..i] + [es[i]];
    assert es[..i + 1][i] == es[i];
    forall j | 0 <= j < i ensures es[..i + 1][j] == es[j] == es[..i][j] {
    }
  }

  /** One piece of allocated memory for each of the first texts. */
  ghost predicate Entries(es: seq<array<byte>>, texts: seq<bytes>)
    reads Blocks(es)
  {
    && |es| <= |texts|
    && (forall i | 0 <= i < |es| :: Wrote(es[i], [], texts[i]) && NulFree(texts[i]))
    && forall i, j | 0 <= i < j < |es| :: es[i] != es[j]
  }

  /** The array starts with the text. */
  ghost predicate Starts(a: array<byte>, text: bytes)
    reads a
  {
    |text| <= a.Length && a[..|text|] == text
  }

  method PutByte(out: array<byte>, at: nat, b: byte, ghost text: bytes) returns (ptr: nat)
    requires Starts(out, text) && at == |text| < out.Length
    modifies out
    ensures Starts(out, text + [b]) && ptr == at + 1
  {
    out[at] := b;
    ptr := at + 1;
  }

  /** The text of an entry at index `at`, and where it ends. */
  method PutEntry(out: array<byte>, at: nat, entry: array<byte>, ghost text: bytes, ghost e: bytes) returns (ptr: nat)
    requires Starts(out, text) && at == |text| && Wrote(entry, [], e) && NulFree(e) && at + |e| <= out.Length
    requires entry != out
    modifies out
    ensures Starts(out, text + e) && ptr == at + |e|
  {
    var tmplen := StrLen(entry, 0, [], e);
    assert entry[..tmplen] == [] + e == e;
    PutText(out, at, entry[..tmplen]);
    ptr := at + tmplen;
  }

  /** The composing loop of print_array; every entry is freed once it has been copied. */
  method ComposeItems(heap: Heap, out: array<byte>, entries: seq<array<byte>>, fmt: bool, ghost texts: seq<bytes>)
    requires Entries(entries, texts) && |entries| == |texts| > 0 && out !in Blocks(entries)
    requires Blocks(entries) <= heap.live && out.Length == ItemsRoom(texts, fmt, |texts|)
    modifies heap, out
    ensures Wrote(out, [], [LBRACKET] + JoinItems(texts, fmt, |texts|) + [RBRACKET])
    ensures heap.live == old(heap.live) - Blocks(entries)
  {
    ItemsFit(texts, fmt, |texts|);
    NothingStarts(out);
    BlocksNone(entries);
    NoneJoined(texts, fmt);
    hide Starts, Entries, Blocks, JoinItems, ItemsRoom;
    var ptr := PutByte(out, 0, LBRACKET, []);
    EndText(out, ptr, [LBRACKET]);
    var i := 0;
    while i < |entries|
      invariant i <= |entries| && ptr == 1 + |JoinItems(texts, fmt, i)| && Entries(entries, texts)
      invariant Starts(out, [LBRACKET] + JoinItems(texts, fmt, i))
      invariant heap.live == old(heap.live) - Blocks(entries[..i])
    {
      EntryLives(entries, texts, i, old(heap.live));
      ptr := ComposeItem(heap, out, ptr, entries, i, fmt, texts);
      i := i + 1;
    }
    ptr := PutByte(out, ptr, RBRACKET, [LBRACKET] + JoinItems(texts, fmt, i));
    EndText(out, ptr, [LBRACKET] + JoinItems(texts, fmt, i) + [RBRACKET]);
  }

  lemma NoneJoined(texts: seq<bytes>, fmt: bool)
    ensures JoinItems(texts, fmt, 0) == [] && [LBRACKET] + JoinItems(texts, fmt, 0) == [] + [LBRACKET] == [LBRACKET]
  {
  }

  lemma BlocksNone(es: seq<array<byte>>)
    ensures Blocks(es[..0]) == {} && Blocks([]) == {} && es[..|es|] == es
  {
  }

  lemma EntryLives(es: seq<array<byte>>, texts: seq<bytes>, i: nat, live: set<object>)
    requires Entries(es, texts) && i < |es| && Blocks(es) <= live
    ensures es[i] in live - Blocks(es[..i])
    ensures live - Blocks(es[..i + 1]) == live - Blocks(es[..i]) - {es[i]}
  {
    BlocksStep(es, i);
    hide Blocks;
  }

  lemma NothingStarts(a: array<byte>)
    ensures Starts(a, [])
  {
  }

  /** Element i is copied, and the separator unless it is the last; the entries stay as they are. */
  method CopyItem(out: array<byte>, at: nat, entries: seq<array<byte>>, i: nat, fmt: bool, ghost texts: seq<bytes>)
    returns (ptr: nat)
    requires Entries(entries, texts) && |entries| == |texts| && i < |entries| && out !in Blocks(entries)
    requires Starts(out, [LBRACKET] + JoinItems(texts, fmt, i)) && at == 1 + |JoinItems(texts, fmt, i)|
    requires out.Length == ItemsRoom(texts, fmt, |texts|)
    modifies out
    ensures Entries(entries, texts) && ptr == 1 + |JoinItems(texts, fmt, i + 1)|
    ensures Starts(out, [LBRACKET] + JoinItems(texts, fmt, i + 1))
  {
    hide Starts, JoinItems, ItemsRoom, Entries, Wrote, NulFree, ElemSeparator;
    ItemsFit(texts, fmt, |texts|);
    ItemsGrow(texts, fmt, i + 1, |texts|);
    EntryAt(entries, texts, i);
    ItemSplit(texts, fmt, i);
    ghost var text := [LBRACKET] + JoinItems(texts, fmt, i);
    ptr := PutEntry(out, at, entries[i], text, texts[i]);
    assert Entries(entries, texts);
    if i != |entries| - 1 {
      ptr := PutSeparator(out, ptr, fmt, text + texts[i]);
    }
  }

  /** What separates an element from the next, and a NUL behind it. */
  method PutSeparator(out: array<byte>, at: nat, fmt: bool, ghost text: bytes) returns (ptr: nat)
    requires Starts(out, text) && at == |text| && at + |ElemSeparator(fmt)| < out.Length
    modifies out
    ensures Starts(out, text + ElemSeparator(fmt)) && ptr == at + |ElemSeparator(fmt)|
  {
    hide Starts;
    ptr := PutByte(out, at, COMMA, text);
    if fmt {
      ptr := PutByte(out, ptr, SPACE, text + [COMMA]);
      assert text + [COMMA] + [SPACE] == text + [COMMA, SPACE];
    }
    EndText(out, ptr, text + ElemSeparator(fmt));
  }

  method ComposeItem(heap: Heap, out: array<byte>, at: nat, entries: seq<array<byte>>, i: nat, fmt: bool,
    ghost texts: seq<bytes>)
    returns (ptr: nat)
    requires Entries(entries, texts) && |entries| == |texts| && i < |entries| && out !in Blocks(entries)
    requires Starts(out, [LBRACKET] + JoinItems(texts, fmt, i)) && at == 1 + |JoinItems(texts, fmt, i)|
    requires out.Length == ItemsRoom(texts, fmt, |texts|) && entries[i] in heap.live
    modifies heap, out
    ensures Entries(entries, texts) && ptr == 1 + |JoinItems(texts, fmt, i + 1)|
    ensures Starts(out, [LBRACKET] + JoinItems(texts, fmt, i + 1))
    ensures heap.live == old(heap.live) - {entries[i]}
  {
    BlocksApart(entries, heap);
    hide Starts, JoinItems, ItemsRoom, Blocks, Entries;
    ptr := CopyItem(out, at, entries, i, fmt, texts);
    heap.Free(entries[i]);
  }

  /** *ptr = 0 behind the text. */
  method EndText(out: array<byte>, at: nat, ghost text: bytes)
    requires Starts(out, text) && at == |text| < out.Length
    modifies out
    ensures Starts(out, text) && Wrote(out, [], text)
  {
    out[at] := 0;
    assert out[..at] == [] + text;
  }

  lemma ItemSplit(texts: seq<bytes>, fmt: bool, i: nat)
    requires i < |texts|
    ensures var head := [LBRACKET] + JoinItems(texts, fmt, i) + texts[i];
      [LBRACKET] + JoinItems(texts, fmt, i + 1) == if i + 1 == |texts| then head else head + ElemSeparator(fmt)
  {
  }

  lemma EntriesMore(es: seq<array<byte>>, texts: seq<bytes>, e: array<byte>)
    requires Entries(es, texts) && |es| < |texts| && e !in Blocks(es)
    requires Wrote(e, [], texts[|es|]) && NulFree(texts[|es|])
    ensures Entries(es + [e], texts) && Blocks(es + [e]) == Blocks(es) + {e}
  {
    var fs := es + [e];
    BlocksStep(fs, |es|);
    assert fs[..|es|] == es && fs[..|es| + 1] == fs;
    forall i | 0 <= i < |es| ensures fs[i] in Blocks(es) {
    }
  }

  lemma BlocksApart(es: seq<array<byte>>, heap: Heap)
    ensures heap !in Blocks(es) && forall o | o in Blocks(es) :: allocated(o)
  {
  }

  /** The text of one child, its length, and the child after it. */
  method PrintKidNew(heap: Heap, child: Node, depth: nat, fmt: bool, ghost t: Tree, ghost i: nat)
    returns (ret: array<byte>, tmplen: nat, next: Node?)
    requires Seen(t) && i < |t.kids| && child == t.kids[i].node && Ready(t.kids[i]) && Shown(t) <= heap.live
    modifies heap
    ensures Seen(t) && next == if i == |t.kids| - 1 then null else t.kids[i + 1].node
    ensures fresh(ret) && heap.live == old(heap.live) + {ret}
    ensures Wrote(ret, [], Text(t.kids[i], depth, fmt)) && tmplen == |Text(t.kids[i], depth, fmt)|
    ensures NulFree(Text(t.kids[i], depth, fmt))
    decreases t, 0
  {
    hide Seen, Reach, ReachAll, Ready, Text, Shown;
    ReachAllocated(t);
    ReachKids(t);
    NextKid(t, i);
    TextNulFree(t.kids[i], depth, fmt);
    ShownKid(t, i, heap.live);
    ret := PrintValueNew(heap, child, depth, fmt, t.kids[i]);
    tmplen := StrLen(ret, 0, [], Text(t.kids[i], depth, fmt));
    NextKid(t, i);
    assert child in heap.live;
    next := child.next;
  }

  /** The printing loop of print_array: the text of every child, and the room to set aside for them all. */
  method PrintItemsNew(heap: Heap, item: Node, depth: nat, fmt: bool, ghost t: Tree)
    returns (entries: seq<array<byte>>, len: nat)
    requires item == t.node && Seen(t) && ReadyAll(t.kids) && Shown(t) <= heap.live
    modifies heap
    ensures |entries| == |t.kids| && Entries(entries, KidTexts(t.kids, depth + 1, fmt))
    ensures len == ItemsRoom(KidTexts(t.kids, depth + 1, fmt), fmt, |t.kids|)
    ensures fresh(Blocks(entries)) && heap.live == old(heap.live) + Blocks(entries)
    decreases t, 2
  {
    ghost var texts := KidTexts(t.kids, depth + 1, fmt);
    FirstKid(t);
    BlocksNone([]);
    assert Entries([], texts);
    ShownParts(t, heap.live);
    hide Seen, Entries, Blocks, KidTexts, Text, ItemsRoom, Shown;
    assert item in heap.live;
    var child := item.child;
    len, entries := 5, [];
    assert len == ItemsRoom(texts, fmt, 0) by { NoRoom(texts, fmt); }
    ghost var got: set<object> := {};
    while child != null
      invariant |entries| <= |t.kids| && child == if |entries| < |t.kids| then t.kids[|entries|].node else null
      invariant Seen(t) && Entries(entries, texts) && len == ItemsRoom(texts, fmt, |entries|)
      invariant Blocks(entries) == got && fresh(got) && heap.live == old(heap.live) + got
      decreases |t.kids| - |entries|
    {
      ghost var more;
      entries, len, child, more := PrintNextItem(heap, child, depth + 1, fmt, t, entries, len, texts);
      got := got + more;
    }
  }

  lemma NoRoom(texts: seq<bytes>, fmt: bool)
    ensures ItemsRoom(texts, fmt, 0) == 5
  {
  }

  /** One turn of that loop. */
  method PrintNextItem(heap: Heap, child: Node, depth: nat, fmt: bool, ghost t: Tree, es: seq<array<byte>>, room: nat,
    ghost texts: seq<bytes>) returns (entries: seq<array<byte>>, len: nat, next: Node?, ghost more: set<object>)
    requires Seen(t) && |es| < |t.kids| && child == t.kids[|es|].node && ReadyAll(t.kids)
    requires Shown(t) <= heap.live
    requires texts == KidTexts(t.kids, depth, fmt) && Entries(es, texts) && room == ItemsRoom(texts, fmt, |es|)
    modifies heap
    ensures Seen(t) && next == if |entries| < |t.kids| then t.kids[|entries|].node else null
    ensures |entries| == |es| + 1 && Entries(entries, texts) && len == ItemsRoom(texts, fmt, |entries|)
    ensures fresh(more) && Blocks(entries) == Blocks(es) + more && heap.live == old(heap.live) + more
    decreases t, 1
  {
    BlocksApart(es, heap);
    hide Seen, Entries, Blocks, Text, Shown;
    var ret, tmplen;
    ret, tmplen, next := PrintKidNew(heap, child, depth, fmt, t, |es|);
    EntriesMore(es, texts, ret);
    entries, more := es + [ret], {ret};
    len := room + tmplen + 2 + if fmt then 1 else 0;
  }

  // ---------- Objects ----------

  method PutTabs(out: array<byte>, at: nat, n: int, ghost text: bytes) returns (ptr: nat)
    requires Starts(out, text) && at == |text| && at + |Tabs(n)| <= out.Length
    modifies out
    ensures Starts(out, text + Tabs(n)) && ptr == at + |Tabs(n)|
  {
    ptr := at;
    var j := 0;
    assert text + Tabs(0) == text;
    while j < n
      invariant 0 <= j && (j <= n || j == 0) && ptr == at + j && Starts(out, text + Tabs(j))
    {
      assert text + Tabs(j + 1) == text + Tabs(j) + [TAB];
      ptr := PutByte(out, ptr, TAB, text + Tabs(j));
      j := j + 1;
    }
  }

  /** One line of an object: tabs, name, colon, value, comma, line feed. */
  method PutMember(out: array<byte>, at: nat, name: array<byte>, entry: array<byte>, depth: nat, fmt: bool, last: bool,
    ghost x: bytes, ghost nm: bytes, ghost tx: bytes) returns (ptr: nat)
    requires Starts(out, x) && at == |x| && at + |MemberText(nm, tx, depth, fmt, last)| < out.Length
    requires Wrote(name, [], nm) && NulFree(nm) && name != out && Wrote(entry, [], tx) && NulFree(tx) && entry != out
    modifies out
    ensures Starts(out, x + MemberText(nm, tx, depth, fmt, last)) && ptr == at + |MemberText(nm, tx, depth, fmt, last)|
  {
    hide Starts, Wrote, NulFree, Tabs;
    ptr := at;
    assert x + [] == x;
    if fmt {
      ptr := PutTabs(out, ptr, depth, x);
    }
    ghost var y := x + Indent(depth, fmt);
    ptr := PutEntry(out, ptr, name, y, nm);
    y := y + nm;
    ptr := PutByte(out, ptr, COLON, y);
    if fmt {
      ptr := PutByte(out, ptr, TAB, y + [COLON]);
    }
    assert y + [COLON] + [TAB] == y + [COLON, TAB];
    y := y + NameSeparator(fmt);
    ptr := PutEntry(out, ptr, entry, y, tx);
    y := y + tx;
    assert y + [] == y;
    if !last {
      ptr := PutByte(out, ptr, COMMA, y);
    }
    y := y + if last then [] else [COMMA];
    assert y + [] == y;
    if fmt {
      ptr := PutByte(out, ptr, LF, y);
    }
    EndText(out, ptr, y + LineBreak(fmt));
    Regrouped(x, Indent(depth, fmt), nm, NameSeparator(fmt), tx, if last then [] else [COMMA], LineBreak(fmt));
  }

  /** Member i is copied; the entries stay as they are. */
  method CopyMember(out: array<byte>, at: nat, names: seq<array<byte>>, entries: seq<array<byte>>, i: nat, depth: nat,
    fmt: bool, ghost head: bytes, ghost nms: seq<bytes>, ghost texts: seq<bytes>) returns (ptr: nat)
    requires Entries(names, nms) && |names| == |nms| && Entries(entries, texts) && |entries| == |texts| == |nms|
    requires i < |entries| && out !in Blocks(names) && out !in Blocks(entries)
    requires Starts(out, head + JoinMembers(nms, texts, depth, fmt, i))
    requires at == |head| + |JoinMembers(nms, texts, depth, fmt, i)|
    requires |head| + |JoinMembers(nms, texts, depth, fmt, |nms|)| < out.Length
    modifies out
    ensures Entries(names, nms) && Entries(entries, texts)
    ensures ptr == |head| + |JoinMembers(nms, texts, depth, fmt, i + 1)|
    ensures Starts(out, head + JoinMembers(nms, texts, depth, fmt, i + 1))
  {
    MembersGrow(nms, texts, depth, fmt, i + 1, |nms|);
    EntryAt(names, nms, i);
    EntryAt(entries, texts, i);
    MemberSplit(head, nms, texts, depth, fmt, i);
    hide Starts, JoinMembers, MembersRoom, Blocks, MemberText, Entries;
    ghost var x := head + JoinMembers(nms, texts, depth, fmt, i);
    ptr := PutMember(out, at, names[i], entries[i], depth, fmt, i == |entries| - 1, x, nms[i], texts[i]);
  }

  lemma EntryAt(es: seq<array<byte>>, texts: seq<bytes>, i: nat)
    requires Entries(es, texts) && i < |es|
    ensures es[i] in Blocks(es) && Wrote(es[i], [], texts[i]) && NulFree(texts[i])
  {
  }

  /** One turn of the composing loop of print_object: the name and the value are freed once they are copied. */
  method ComposeMember(heap: Heap, out: array<byte>, at: nat, names: seq<array<byte>>, entries: seq<array<byte>>,
    i: nat, depth: nat, fmt: bool, ghost head: bytes, ghost nms: seq<bytes>, ghost texts: seq<bytes>) returns (ptr: nat)
    requires Entries(names, nms) && |names| == |nms| && Entries(entries, texts) && |entries| == |texts| == |nms|
    requires i < |entries| && out !in Blocks(names) && out !in Blocks(entries)
    requires Starts(out, head + JoinMembers(nms, texts, depth, fmt, i))
    requires at == |head| + |JoinMembers(nms, texts, depth, fmt, i)|
    requires |head| + |JoinMembers(nms, texts, depth, fmt, |nms|)| < out.Length
    requires names[i] in heap.live && entries[i] in heap.live && names[i] != entries[i]
    modifies heap, out
    ensures Entries(names, nms) && Entries(entries, texts)
    ensures ptr == |head| + |JoinMembers(nms, texts, depth, fmt, i + 1)|
    ensures Starts(out, head + JoinMembers(nms, texts, depth, fmt, i + 1))
    ensures heap.live == old(heap.live) - {names[i], entries[i]}
  {
    BlocksApart(names, heap);
    BlocksApart(entries, heap);
    hide Starts, JoinMembers, Blocks, Entries;
    ptr := CopyMember(out, at, names, entries, i, depth, fmt, head, nms, texts);
    heap.Free(names[i]);
    heap.Free(entries[i]);
  }

  /** The opening brace, behind which a line break follows when formatted. */
  method PutOpening(out: array<byte>, fmt: bool) returns (ptr: nat)
    requires out.Length > 2
    modifies out
    ensures Starts(out, [LBRACE] + LineBreak(fmt)) && ptr == |[LBRACE] + LineBreak(fmt)|
  {
    NothingStarts(out);
    assert [] + [LBRACE] == [LBRACE] && [LBRACE] + [] == [LBRACE];
    hide Starts;
    ptr := PutByte(out, 0, LBRACE, []);
    if fmt {
      ptr := PutByte(out, ptr, LF, [LBRACE]);
    }
    EndText(out, ptr, [LBRACE] + LineBreak(fmt));
  }

  /** Tabs, the closing brace and the final NUL. */
  method PutClosing(out: array<byte>, at: nat, depth: int, fmt: bool, ghost x: bytes)
    requires Starts(out, x) && at == |x| && at + |Indent(depth, fmt)| + 1 < out.Length
    modifies out
    ensures Wrote(out, [], x + Indent(depth, fmt) + [RBRACE])
  {
    var ptr := at;
    assert x + [] == x;
    hide Starts;
    if fmt {
      ptr := PutTabs(out, ptr, depth, x);
    }
    ptr := PutByte(out, ptr, RBRACE, x + Indent(depth, fmt));
    EndText(out, ptr, x + Indent(depth, fmt) + [RBRACE]);
  }

  /** The memory of the first i names and values. */
  ghost predicate Freed(names: seq<array<byte>>, entries: seq<array<byte>>, i: nat, freed: set<object>)
    requires i <= |names| == |entries|
  {
    freed == Blocks(names[..i]) + Blocks(entries[..i])
  }

  lemma FreedMore(names: seq<array<byte>>, entries: seq<array<byte>>, nms: seq<bytes>, texts: seq<bytes>, i: nat,
    freed: set<object>, live: set<object>)
    requires Entries(names, nms) && Entries(entries, texts) && i < |names| == |entries|
    requires Blocks(names) <= live && Blocks(entries) <= live && Blocks(names) !! Blocks(entries)
    requires Freed(names, entries, i, freed)
    ensures names[i] in live - freed && entries[i] in live - freed && names[i] != entries[i]
    ensures Freed(names, entries, i + 1, freed + {names[i], entries[i]})
  {
    BlocksStep(names, i);
    BlocksStep(entries, i);
    forall o | o in Blocks(names[..i]) ensures o in Blocks(names) {
    }
    forall o | o in Blocks(entries[..i]) ensures o in Blocks(entries) {
    }
    hide Blocks;
  }

  lemma FreedEnds(names: seq<array<byte>>, entries: seq<array<byte>>)
    requires |names| == |entries|
    ensures Freed(names, entries, 0, {}) && Freed(names, entries, |names|, Blocks(names) + Blocks(entries))
  {
    BlocksNone(names);
    BlocksNone(entries);
  }

  /** The composing loop of print_object. */
  method ComposeMembers(heap: Heap, out: array<byte>, names: seq<array<byte>>, entries: seq<array<byte>>, depth: nat,
    fmt: bool, ghost nms: seq<bytes>, ghost texts: seq<bytes>)
    requires Entries(names, nms) && |names| == |nms| && Entries(entries, texts) && |entries| == |texts| == |nms|
    requires out !in Blocks(names) && out !in Blocks(entries) && Blocks(names) !! Blocks(entries)
    requires Blocks(names) <= heap.live && Blocks(entries) <= heap.live && depth > 0
    requires out.Length == MembersRoom(nms, texts, depth, fmt, |texts|)
    modifies heap, out
    ensures Wrote(out, [], Braced(JoinMembers(nms, texts, depth, fmt, |texts|), depth - 1, fmt))
    ensures heap.live == old(heap.live) - (Blocks(names) + Blocks(entries))
  {
    ghost var head := [LBRACE] + LineBreak(fmt);
    hide Entries, Blocks, JoinMembers, MembersRoom, Copied;
    var ptr := OpenMembers(out, names, entries, depth, fmt, nms, texts);
    ptr := CopyMembers(heap, out, ptr, names, entries, depth, fmt, head, nms, texts);
    CloseMembers(out, ptr, names, entries, depth, fmt, head, nms, texts);
  }

  method OpenMembers(out: array<byte>, ghost names: seq<array<byte>>, ghost entries: seq<array<byte>>, depth: nat,
    fmt: bool, ghost nms: seq<bytes>, ghost texts: seq<bytes>) returns (ptr: nat)
    requires Entries(names, nms) && |names| == |nms| && Entries(entries, texts) && |entries| == |texts| == |nms|
    requires out !in Blocks(names) && out !in Blocks(entries)
      && out.Length == MembersRoom(nms, texts, depth, fmt, |texts|)
    modifies out
    ensures Copied(out, names, entries, nms, texts, depth, fmt, [LBRACE] + LineBreak(fmt), 0, ptr)
  {
    MembersFit(nms, texts, depth, fmt, |texts|);
    ghost var head := [LBRACE] + LineBreak(fmt);
    JoinNone(nms, texts, depth, fmt);
    assert head + [] == head;
    hide Starts, Entries, Blocks, JoinMembers, MembersRoom;
    ptr := PutOpening(out, fmt);
  }

  method CloseMembers(out: array<byte>, ptr: nat, ghost names: seq<array<byte>>, ghost entries: seq<array<byte>>,
    depth: nat, fmt: bool, ghost head: bytes, ghost nms: seq<bytes>, ghost texts: seq<bytes>)
    requires |nms| == |texts| && Copied(out, names, entries, nms, texts, depth, fmt, head, |texts|, ptr) && depth > 0
    requires head == [LBRACE] + LineBreak(fmt) && out.Length == MembersRoom(nms, texts, depth, fmt, |texts|)
    modifies out
    ensures Wrote(out, [], Braced(JoinMembers(nms, texts, depth, fmt, |texts|), depth - 1, fmt))
  {
    MembersFit(nms, texts, depth, fmt, |texts|);
    hide Starts, Entries, Blocks, JoinMembers, MembersRoom;
    PutClosing(out, ptr, depth - 1, fmt, head + JoinMembers(nms, texts, depth, fmt, |texts|));
  }

  method CopyMembers(heap: Heap, out: array<byte>, at: nat, names: seq<array<byte>>, entries: seq<array<byte>>,
    depth: nat, fmt: bool, ghost head: bytes, ghost nms: seq<bytes>, ghost texts: seq<bytes>) returns (ptr: nat)
    requires |names| == |nms| == |entries| == |texts| && out !in Blocks(names) && out !in Blocks(entries)
    requires Copied(out, names, entries, nms, texts, depth, fmt, head, 0, at)
    requires Blocks(names) <= heap.live && Blocks(entries) <= heap.live && Blocks(names) !! Blocks(entries)
    modifies heap, out
    ensures Copied(out, names, entries, nms, texts, depth, fmt, head, |texts|, ptr)
    ensures heap.live == old(heap.live) - (Blocks(names) + Blocks(entries))
  {
    FreedEnds(names, entries);
    hide Entries, Blocks, JoinMembers, Freed, Copied;
    ptr := at;
    var i := 0;
    ghost var freed: set<object>, live := {}, heap.live;
    while i < |entries|
      invariant i <= |entries| && Copied(out, names, entries, nms, texts, depth, fmt, head, i, ptr)
      invariant Freed(names, entries, i, freed) && heap.live == live - freed
    {
      ghost var more;
      ptr, more := ComposeTurn(heap, out, ptr, names, entries, i, depth, fmt, head, nms, texts, freed, live);
      freed := freed + more;
      i := i + 1;
    }
    FreedAll(names, entries, freed);
  }

  /** The first i members are copied, up to index ptr; all entries are still as they were printed. */
  ghost predicate Copied(out: array<byte>, names: seq<array<byte>>, entries: seq<array<byte>>, nms: seq<bytes>,
    texts: seq<bytes>, depth: nat, fmt: bool, head: bytes, i: nat, ptr: nat)
    requires i <= |texts| == |nms|
    reads out, Blocks(names), Blocks(entries)
  {
    && ptr == |head| + |JoinMembers(nms, texts, depth, fmt, i)|
    && |head| + |JoinMembers(nms, texts, depth, fmt, |nms|)| < out.Length
    && Entries(names, nms) && Entries(entries, texts)
    && Starts(out, head + JoinMembers(nms, texts, depth, fmt, i))
  }

  method ComposeTurn(heap: Heap, out: array<byte>, at: nat, names: seq<array<byte>>, entries: seq<array<byte>>, i: nat,
    depth: nat, fmt: bool, ghost head: bytes, ghost nms: seq<bytes>, ghost texts: seq<bytes>,
    ghost freed: set<object>, ghost live: set<object>) returns (ptr: nat, ghost more: set<object>)
    requires |names| == |nms| == |entries| == |texts| && i < |entries| && out !in Blocks(names)
      && out !in Blocks(entries)
    requires Copied(out, names, entries, nms, texts, depth, fmt, head, i, at)
    requires Blocks(names) <= live && Blocks(entries) <= live && Blocks(names) !! Blocks(entries)
    requires Freed(names, entries, i, freed) && heap.live == live - freed
    modifies heap, out
    ensures Copied(out, names, entries, nms, texts, depth, fmt, head, i + 1, ptr)
    ensures Freed(names, entries, i + 1, freed + more) && heap.live == live - (freed + more)
  {
    hide Starts, JoinMembers, Blocks, Entries, Freed;
    FreedMore(names, entries, nms, texts, i, freed, live);
    ptr := ComposeMember(heap, out, at, names, entries, i, depth, fmt, head, nms, texts);
    more := {names[i], entries[i]};
  }

  lemma FreedAll(names: seq<array<byte>>, entries: seq<array<byte>>, freed: set<object>)
    requires |names| == |entries| && Freed(names, entries, |names|, freed)
    ensures freed == Blocks(names) + Blocks(entries)
  {
    BlocksNone(names);
    BlocksNone(entries);
  }

  /** The names and values printed so far; got is the memory they take. */
  ghost predicate Printed(names: seq<array<byte>>, entries: seq<array<byte>>, nms: seq<bytes>, texts: seq<bytes>,
    got: set<object>)
    reads Blocks(names), Blocks(entries)
  {
    && |names| == |entries| && Entries(names, nms) && Entries(entries, texts)
    && Blocks(names) !! Blocks(entries) && got == Blocks(names) + Blocks(entries)
  }

  lemma PrintedMore(ns: seq<array<byte>>, es: seq<array<byte>>, nms: seq<bytes>, texts: seq<bytes>, got: set<object>,
    str: array<byte>, ret: array<byte>)
    requires Printed(ns, es, nms, texts, got) && |ns| < |nms| == |texts|
    requires Wrote(str, [], nms[|ns|]) && NulFree(nms[|ns|]) && Wrote(ret, [], texts[|ns|]) && NulFree(texts[|ns|])
    requires str !in got && ret !in got && str != ret
    ensures Printed(ns + [str], es + [ret], nms, texts, got + {str, ret})
  {
    EntriesMore(ns, nms, str);
    EntriesMore(es, texts, ret);
    hide Entries, Blocks;
  }

  lemma PrintedApart(ns: seq<array<byte>>, es: seq<array<byte>>, nms: seq<bytes>, texts: seq<bytes>, got: set<object>,
    heap: Heap)
    requires Printed(ns, es, nms, texts, got)
    ensures heap !in Blocks(ns) && heap !in Blocks(es)
    ensures forall o | o in got || o in Blocks(ns) || o in Blocks(es) :: allocated(o)
  {
    BlocksApart(ns, heap);
    BlocksApart(es, heap);
  }

  /** The name of a child; the tree stays as it is. */
  method PrintNameOf(heap: Heap, child: Node, ghost t: Tree, ghost i: nat) returns (str: array<byte>, len: nat)
    requires Seen(t) && i < |t.kids| && child == t.kids[i].node && t.kids[i].name != null && Shown(t) <= heap.live
    modifies heap
    ensures Seen(t) && Wrote(str, [], PrintString(t.kids[i].name.s)) && len == |PrintString(t.kids[i].name.s)|
    ensures fresh(str) && heap.live == old(heap.live) + {str}
  {
    ReachAllocated(t);
    ReachKids(t);
    NextKid(t, i);
    ShownKid(t, i, heap.live);
    FieldsShown(t.kids[i]);
    hide Seen, Reach, ReachAll, PrintString, Shown;
    assert child in heap.live;
    str, len := PrintName(heap, child.name);
  }

  /** The name and the value of a child, and the child after it. */
  method PrintBoth(heap: Heap, child: Node, depth: nat, fmt: bool, ghost t: Tree, ghost i: nat)
    returns (str: array<byte>, ret: array<byte>, strlen: nat, retlen: nat, next: Node?)
    requires Seen(t) && i < |t.kids| && child == t.kids[i].node && Shown(t) <= heap.live
    requires t.kids[i].name != null && Ready(t.kids[i])
    modifies heap
    ensures Seen(t) && next == if i == |t.kids| - 1 then null else t.kids[i + 1].node
    ensures Wrote(str, [], PrintString(t.kids[i].name.s)) && strlen == |PrintString(t.kids[i].name.s)|
    ensures Wrote(ret, [], Text(t.kids[i], depth, fmt)) && retlen == |Text(t.kids[i], depth, fmt)|
    ensures NulFree(PrintString(t.kids[i].name.s)) && NulFree(Text(t.kids[i], depth, fmt))
    ensures str != ret && fresh({str, ret}) && heap.live == old(heap.live) + {str, ret}
    decreases t, 1
  {
    NameNulFree(t.kids[i].name.s);
    hide Seen, Text, PrintString, Shown, NulFree, Wrote;
    str, strlen := PrintNameOf(heap, child, t, i);
    ret, retlen, next := PrintKidNew(heap, child, depth, fmt, t, i);
  }

  /** A name, a value, and the member after it. */
  method PrintPair(heap: Heap, child: Node, depth: nat, fmt: bool, ghost t: Tree, ns: seq<array<byte>>,
    es: seq<array<byte>>, ghost nms: seq<bytes>, ghost texts: seq<bytes>, ghost got: set<object>)
    returns (str: array<byte>, ret: array<byte>, strlen: nat, retlen: nat, next: Node?, ghost more: set<object>)
    requires Seen(t) && |ns| == |es| < |t.kids| && child == t.kids[|es|].node && Shown(t) <= heap.live
    requires ReadyAll(t.kids) && NamedAll(t.kids) && texts == KidTexts(t.kids, depth, fmt) && nms == NameTexts(t.kids)
    requires Printed(ns, es, nms, texts, got)
    modifies heap
    ensures Seen(t) && next == if |es| + 1 < |t.kids| then t.kids[|es| + 1].node else null
    ensures Printed(ns + [str], es + [ret], nms, texts, got + more)
    ensures strlen == |nms[|ns|]| && retlen == |texts[|es|]|
    ensures fresh(more) && heap.live == old(heap.live) + more
    decreases t, 2
  {
    PrintedApart(ns, es, nms, texts, got, heap);
    hide Seen, Printed, Blocks, Text, NameTexts, KidTexts, PrintString, Shown, NulFree, Wrote, Ready;
    str, ret, strlen, retlen, next := PrintBoth(heap, child, depth, fmt, t, |es|);
    PrintedMore(ns, es, nms, texts, got, str, ret);
    more := {str, ret};
  }

  /** The names and values printed so far, and the room counted for them. */
  ghost predicate Underway(names: seq<array<byte>>, entries: seq<array<byte>>, len: nat, nms: seq<bytes>,
    texts: seq<bytes>, depth: nat, fmt: bool, got: set<object>)
    requires |nms| == |texts|
    reads Blocks(names), Blocks(entries)
  {
    && |names| == |entries| <= |texts| && Printed(names, entries, nms, texts, got)
    && len == MembersRoom(nms, texts, depth, fmt, |entries|)
  }

  /** One turn of the printing loop of print_object. */
  method PrintNextMember(heap: Heap, child: Node, depth: nat, fmt: bool, ghost t: Tree, ns: seq<array<byte>>,
    es: seq<array<byte>>, room: nat, ghost nms: seq<bytes>, ghost texts: seq<bytes>, ghost got: set<object>)
    returns (names: seq<array<byte>>, entries: seq<array<byte>>, len: nat, next: Node?, ghost more: set<object>)
    requires Seen(t) && |es| < |t.kids| && child == t.kids[|es|].node && Shown(t) <= heap.live
    requires ReadyAll(t.kids) && NamedAll(t.kids) && texts == KidTexts(t.kids, depth, fmt) && nms == NameTexts(t.kids)
    requires Underway(ns, es, room, nms, texts, depth, fmt, got)
    modifies heap
    ensures Seen(t) && next == if |entries| < |t.kids| then t.kids[|entries|].node else null
    ensures Underway(names, entries, len, nms, texts, depth, fmt, got + more) && |entries| == |es| + 1
    ensures fresh(more) && heap.live == old(heap.live) + more
    decreases t, 3
  {
    UnderwayParts(ns, es, room, nms, texts, depth, fmt, got);
    hide Seen, Underway, Printed, Blocks, Text, NameTexts, KidTexts, MembersRoom, ReadyAll, NamedAll, Shown;
    var str, ret, strlen, retlen;
    str, ret, strlen, retlen, next, more := PrintPair(heap, child, depth, fmt, t, ns, es, nms, texts, got);
    names, entries := ns + [str], es + [ret];
    len := room + retlen + strlen + 2 + if fmt then 2 + depth else 0;
    UnderwayMore(names, entries, len, nms, texts, depth, fmt, got + more);
  }

  lemma UnderwayParts(ns: seq<array<byte>>, es: seq<array<byte>>, room: nat, nms: seq<bytes>, texts: seq<bytes>,
    depth: nat, fmt: bool, got: set<object>)
    requires |nms| == |texts| && Underway(ns, es, room, nms, texts, depth, fmt, got)
    ensures |ns| == |es| <= |texts| && Printed(ns, es, nms, texts, got)
      && room == MembersRoom(nms, texts, depth, fmt, |es|)
  {
  }

  lemma UnderwayMore(names: seq<array<byte>>, entries: seq<array<byte>>, len: nat, nms: seq<bytes>, texts: seq<bytes>,
    depth: nat, fmt: bool, got: set<object>)
    requires |nms| == |texts| && 0 < |names| == |entries| <= |texts| && Printed(names, entries, nms, texts, got)
    requires var n := |entries| - 1;
      len == MembersRoom(nms, texts, depth, fmt, n) + |texts[n]| + |nms[n]| + 2 + (if fmt then 2 + depth else 0)
    ensures Underway(names, entries, len, nms, texts, depth, fmt, got)
  {
  }

  method PrintName(heap: Heap, name: CStr) returns (str: array<byte>, len: nat)
    requires name in heap.live
    modifies heap
    ensures Wrote(str, [], PrintString(name.s)) && len == |PrintString(name.s)|
    ensures fresh(str) && heap.live == old(heap.live) + {str}
  {
    NameNulFree(name.s);
    str := PrintStringPtr(heap, name);
    len := StrLen(str, 0, [], PrintString(name.s));
  }

  /** The printing loop of print_object; depth is that of the members. */
  method PrintMembersNew(heap: Heap, item: Node, depth: nat, fmt: bool, ghost t: Tree)
    returns (names: seq<array<byte>>, entries: seq<array<byte>>, len: nat, ghost got: set<object>)
    requires item == t.node && Seen(t) && ReadyAll(t.kids) && NamedAll(t.kids) && Shown(t) <= heap.live
    modifies heap
    ensures |names| == |entries| == |t.kids|
    ensures Printed(names, entries, NameTexts(t.kids), KidTexts(t.kids, depth, fmt), got)
    ensures len == MembersRoom(NameTexts(t.kids), KidTexts(t.kids, depth, fmt), depth, fmt, |t.kids|)
    ensures fresh(got) && heap.live == old(heap.live) + got
    decreases t, 4
  {
    hide Seen, Underway, Printed, Blocks, KidTexts, NameTexts, Text, MembersRoom, ReadyAll, NamedAll, Shown;
    ghost var texts, nms := KidTexts(t.kids, depth, fmt), NameTexts(t.kids);
    FirstKid(t);
    ShownParts(t, heap.live);
    assert item in heap.live;
    var child := item.child;
    len, names, entries, got := 7, [], [], {};
    if fmt {
      len := len + depth;
    }
    NothingPrinted(len, nms, texts, depth, fmt);
    while child != null
      invariant |entries| <= |t.kids| && child == if |entries| < |t.kids| then t.kids[|entries|].node else null
      invariant Seen(t) && Underway(names, entries, len, nms, texts, depth, fmt, got)
      invariant fresh(got) && heap.live == old(heap.live) + got
      decreases |t.kids| - |entries|
    {
      ghost var more;
      names, entries, len, child, more := PrintNextMember(heap, child, depth, fmt, t, names, entries, len, nms, texts,
        got);
      got := got + more;
    }
    UnderwayAll(names, entries, len, nms, texts, depth, fmt, got);
  }

  lemma UnderwayAll(names: seq<array<byte>>, entries: seq<array<byte>>, len: nat, nms: seq<bytes>, texts: seq<bytes>,
    depth: nat, fmt: bool, got: set<object>)
    requires |nms| == |texts| == |entries| && Underway(names, entries, len, nms, texts, depth, fmt, got)
    ensures |names| == |entries| && Printed(names, entries, nms, texts, got)
    ensures len == MembersRoom(nms, texts, depth, fmt, |texts|)
  {
  }

  lemma NothingPrinted(len: nat, nms: seq<bytes>, texts: seq<bytes>, depth: nat, fmt: bool)
    requires |nms| == |texts| && len == if fmt then 7 + depth else 7
    ensures Underway([], [], len, nms, texts, depth, fmt, {})
  {
  }

  lemma PrintedEnd(ns: seq<array<byte>>, es: seq<array<byte>>, nms: seq<bytes>, texts: seq<bytes>, got: set<object>)
    requires Printed(ns, es, nms, texts, got)
    ensures Entries(ns, nms) && Entries(es, texts) && Blocks(ns) !! Blocks(es) && got == Blocks(ns) + Blocks(es)
  {
  }

  // ---------- Values ----------

  /** print_array with its four arguments. */
  method PrintArrayNew(heap: Heap, item: Node, depth: nat, fmt: bool, ghost t: Tree) returns (out: array<byte>)
    requires item == t.node && Seen(t) && t.kind == KArray && Ready(t) && Shown(t) <= heap.live
    modifies heap
    ensures fresh(out) && heap.live == old(heap.live) + {out} && Wrote(out, [], Text(t, depth, fmt))
    decreases t, 5
  {
    hide Seen, Siblings, Reach, ReachAll, Entries, Blocks, KidTexts, Ready, Text, JoinItems, ItemsRoom, Shown;
    ArrayJoined(t, depth, fmt);
    ReadyElements(t, depth, fmt);
    KidLinks(t);
    ReachAllocated(t);
    ReachKids(t);
    ShownRoots(t, heap.live);
    ShownParts(t, heap.live);
    assert item in heap.live && forall n | n in Roots(t.kids) :: n in heap.live;
    var numentries := GetArraySize(item, Roots(t.kids));
    if numentries == 0 {
      out := heap.NewBytes(3);
      assert out[..0] == [];
      PutString(out, 0, [LBRACKET, RBRACKET]);
      return;
    }
    var entries, len := PrintItemsNew(heap, item, depth, fmt, t);
    out := ComposeArray(heap, entries, len, fmt, KidTexts(t.kids, depth + 1, fmt));
  }

  lemma ReadyElements(t: Tree, depth: nat, fmt: bool)
    requires t.kind == KArray && Ready(t)
    ensures ReadyAll(t.kids) && |KidTexts(t.kids, depth + 1, fmt)| == |t.kids|
    ensures JoinItems(KidTexts(t.kids, depth + 1, fmt), fmt, 0) == []
  {
  }

  method ComposeArray(heap: Heap, entries: seq<array<byte>>, len: nat, fmt: bool, ghost texts: seq<bytes>)
    returns (out: array<byte>)
    requires Entries(entries, texts) && |entries| == |texts| > 0 && Blocks(entries) <= heap.live
    requires len == ItemsRoom(texts, fmt, |texts|)
    modifies heap
    ensures Wrote(out, [], [LBRACKET] + JoinItems(texts, fmt, |texts|) + [RBRACKET])
    ensures fresh(out) && heap.live == old(heap.live) - Blocks(entries) + {out}
  {
    BlocksApart(entries, heap);
    hide Entries, Blocks, JoinItems, ItemsRoom, Wrote;
    out := heap.NewBytes(len);
    ComposeItems(heap, out, entries, fmt, texts);
  }

  method PrintNoMembers(heap: Heap, depth: nat, fmt: bool) returns (out: array<byte>)
    modifies heap
    ensures fresh(out) && heap.live == old(heap.live) + {out} && Wrote(out, [], Braced([], depth - 1, fmt))
  {
    out := heap.NewBytes(if fmt then depth + 4 else 3);
    var ptr := PutOpening(out, fmt);
    assert [LBRACE] + LineBreak(fmt) + [] == [LBRACE] + LineBreak(fmt);
    PutClosing(out, ptr, depth - 1, fmt, [LBRACE] + LineBreak(fmt));
  }

  method PrintObjectNew(heap: Heap, item: Node, depth: nat, fmt: bool, ghost t: Tree) returns (out: array<byte>)
    requires item == t.node && Seen(t) && t.kind == KObject && Ready(t) && Shown(t) <= heap.live
    modifies heap
    ensures fresh(out) && heap.live == old(heap.live) + {out} && Wrote(out, [], Text(t, depth, fmt))
    decreases t, 5
  {
    ObjectJoined(t, depth, fmt);
    KidLinks(t);
    ReachAllocated(t);
    ReachKids(t);
    ShownRoots(t, heap.live);
    ShownParts(t, heap.live);
    hide Seen, Siblings, Reach, ReachAll, Printed, Blocks, KidTexts, NameTexts, Ready, Text, JoinMembers, MembersRoom,
      Braced, Shown;
    assert item in heap.live && forall n | n in Roots(t.kids) :: n in heap.live;
    var numentries := GetArraySize(item, Roots(t.kids));
    if numentries == 0 {
      out := PrintNoMembers(heap, depth, fmt);
      return;
    }
    var names, entries, len;
    ghost var got;
    names, entries, len, got := PrintMembersNew(heap, item, depth + 1, fmt, t);
    out := ComposeObject(heap, names, entries, len, depth + 1, fmt, NameTexts(t.kids),
      KidTexts(t.kids, depth + 1, fmt), got);
  }

  method ComposeObject(heap: Heap, names: seq<array<byte>>, entries: seq<array<byte>>, len: nat, depth: nat, fmt: bool,
    ghost nms: seq<bytes>, ghost texts: seq<bytes>, ghost got: set<object>) returns (out: array<byte>)
    requires Printed(names, entries, nms, texts, got) && |entries| == |texts| == |nms| && depth > 0
    requires got <= heap.live && len == MembersRoom(nms, texts, depth, fmt, |texts|)
    modifies heap
    ensures Wrote(out, [], Braced(JoinMembers(nms, texts, depth, fmt, |texts|), depth - 1, fmt))
    ensures fresh(out) && heap.live == old(heap.live) - got + {out}
  {
    PrintedEnd(names, entries, nms, texts, got);
    PrintedApart(names, entries, nms, texts, got, heap);
    hide Printed, Entries, Blocks, Braced, JoinMembers, MembersRoom;
    out := heap.NewBytes(len);
    ComposeMembers(heap, out, names, entries, depth, fmt, nms, texts);
  }

  /** cJSON_strdup. */
  method StrDup(heap: Heap, s: bytes) returns (out: array<byte>)
    modifies heap
    ensures fresh(out) && heap.live == old(heap.live) + {out} && Wrote(out, [], s)
  {
    out := heap.NewBytes(|s| + 1);
    assert out[..0] == [];
    PutString(out, 0, s);
  }

  /** print_value without a buffer. */
  method PrintValueNew(heap: Heap, item: Node, depth: nat, fmt: bool, ghost t: Tree) returns (out: array<byte>)
    requires item == t.node && Seen(t) && Ready(t) && Shown(t) <= heap.live
    modifies heap
    ensures fresh(out) && heap.live == old(heap.live) + {out} && Wrote(out, [], Text(t, depth, fmt))
    decreases t, 6
  {
    FieldsShown(t);
    LeafText(t, depth, fmt);
    ShownParts(t, heap.live);
    hide Seen, Text, Shown;
    assert item in heap.live;
    match item.kind
    case KNull => out := StrDup(heap, NULL_WORD);
    case KFalse => out := StrDup(heap, FALSE_WORD);
    case KTrue => out := StrDup(heap, TRUE_WORD);
    case KNumber => out := PrintNumberNew(heap, item, t);
    case KString => out := PrintStringPtr(heap, item.valuestring);
    case KArray => out := PrintArrayNew(heap, item, depth, fmt, t);
    case KObject => out := PrintObjectNew(heap, item, depth, fmt, t);
  }

  /** cJSON_Print and cJSON_PrintUnformatted: memory that holds the text and a NUL; nothing else stays
      allocated. */
  method PrintItem(heap: Heap, item: Node, fmt: bool, ghost t: Tree) returns (out: array<byte>)
    requires item == t.node && Seen(t) && Ready(t) && Shown(t) <= heap.live
    modifies heap
    ensures fresh(out) && heap.live == old(heap.live) + {out} && Wrote(out, [], Text(t, 0, fmt))
  {
    out := PrintValueNew(heap, item, 0, fmt, t);
  }
}
