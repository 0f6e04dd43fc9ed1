/** cJSON_PrintBuffered: the printer that writes into one growing buffer. What is printed must still be live: every
    block that is read is. */
module BufferedPrinting {
  import opened Bytes
  import opened Printing
  import opened Buffers
  import opened StringPrinting
  import opened Nodes
  import opened Lists
  import opened Joining

  /** The largest size that pow2gt can reach without overflow. */
  const LIMIT: nat := 0x4000_0000

  /** How much more than the text itself any call asks for: a number asks for 21 bytes. */
  const SLACK: nat := 20

  class PrintBuffer {
    const heap: Heap
    var buffer: array<byte>
    var length: nat
    var offset: nat

    constructor (heap: Heap, prebuffer: nat)
      requires prebuffer > 0
      modifies heap
      ensures this.heap == heap && fresh(buffer) && Filled([]) && length == prebuffer
      ensures heap.live == old(heap.live) + {buffer}
    {
      var b := heap.NewBytes(prebuffer);
      this.heap := heap;
      buffer, length, offset := b, prebuffer, 0;
      new;
      assert buffer[..0] == [];
    }

    ghost predicate Valid()
      reads this, heap
    {
      buffer.Length == length && offset <= length && buffer in heap.live
    }

    /** What is live beside the buffer. */
    ghost function Others(): set<object>
      reads this, heap
    {
      heap.live - {buffer}
    }

    /** The text so far is all written and offset stands behind it. */
    ghost predicate Filled(text: bytes)
      reads this, buffer, heap
    {
      Valid() && offset == |text| && buffer[..offset] == text
    }

    /** The new text is written and ended by a NUL; offset may still be inside it. */
    ghost predicate Ended(before: bytes, text: bytes)
      reads this, buffer, heap
    {
      Valid() && |before| <= offset <= |before| + |text| && Wrote(buffer, before, text)
    }

    /** Room for `needed` more bytes; where the buffer is too small, one of the least sufficient power of two
        takes its place. */
    method Ensure(needed: nat) returns (at: nat)
      requires Valid() && 1 <= offset + needed <= LIMIT
      modifies `buffer, `length, heap
      ensures Valid() && at == offset && offset + needed <= length
      ensures old(offset) + needed <= old(length) ==> buffer == old(buffer) && length == old(length)
      ensures old(offset) + needed > old(length) ==>
        fresh(buffer) && IsPow2(length) && forall q: nat | IsPow2(q) && offset + needed <= q :: length <= q
      ensures buffer[..old(length)] == old(buffer[..])
      ensures Others() == old(Others())
    {
      var total := needed + offset;
      if total <= length {
        return offset;
      }
      var newsize := Pow2gt(total);
      var newbuffer := heap.NewBytes(newsize);
      assert newbuffer[..0] + buffer[..length] == buffer[..];
      PutText(newbuffer, 0, buffer[..length]);
      heap.Free(buffer);
      length := newsize;
      buffer := newbuffer;
      return offset;
    }

    /** update: offset behind the text that ends with the next NUL. */
    method Update(ghost before: bytes, ghost text: bytes) returns (n: nat)
      requires Ended(before, text) && NulFree(text)
      ensures n == |before| + |text|
    {
      n := StrLen(buffer, offset, before, text);
      n := n + offset;
    }

    // ---------- Pieces ----------

    /** Bytes without a NUL behind them. */
    method Emit(s: bytes, ghost text: bytes)
      requires Filled(text) && 1 <= |text| + |s| <= LIMIT
      modifies `buffer, `length, `offset, buffer, heap
      ensures Filled(text + s)
      ensures (buffer == old(buffer) || fresh(buffer)) && Others() == old(Others())
    {
      var at := Ensure(|s|);
      assert buffer[..at] == text;
      PutText(buffer, at, s);
      offset := offset + |s|;
    }

    /** Bytes and a NUL that the next piece overwrites. */
    method EmitEnded(s: bytes, ghost text: bytes)
      requires Filled(text) && |text| + |s| + 1 <= LIMIT
      modifies `buffer, `length, `offset, buffer, heap
      ensures Filled(text + s)
      ensures (buffer == old(buffer) || fresh(buffer)) && Others() == old(Others())
    {
      var at := Ensure(|s| + 1);
      assert buffer[..at] == text;
      PutString(buffer, at, s);
      offset := offset + |s|;
    }

    /** Bytes and a NUL, with offset left in front of them. */
    method Store(needed: nat, s: bytes, ghost before: bytes)
      requires Filled(before) && |s| < needed && |before| + needed <= LIMIT
      modifies `buffer, `length, buffer, heap
      ensures Ended(before, s) && offset == |before|
      ensures (buffer == old(buffer) || fresh(buffer)) && Others() == old(Others())
    {
      var at := Ensure(needed);
      assert buffer[..at] == before;
      PutString(buffer, at, s);
    }

    method PrintStringTo(str: CStr, ghost before: bytes)
      requires str in Others()
      requires Filled(before) && |before| + |PrintString(str.s)| + 1 <= LIMIT
      modifies `buffer, `length, buffer, heap
      ensures Ended(before, PrintString(str.s)) && offset == |before|
      ensures (buffer == old(buffer) || fresh(buffer)) && Others() == old(Others())
    {
      var z := Terminated(str.s);
      assert Body(z) == str.s;
      var len;
      var flag := NeedsEscape(z);
      if flag {
        len := MeasureEscaped(z);
      } else {
        PlainEscape(str.s);
        len := |z| - 1;
      }
      var at := Ensure(len + 3);
      assert buffer[..at] == before;
      WriteString(buffer, at, z, flag);
    }

    method PrintNumberTo(item: Node, ghost t: Tree, ghost before: bytes)
      requires item.valuedouble == t.number && item.valueint == t.whole && t.kind == KNumber && Ready(t)
      requires item in Others()
      requires Filled(before) && |before| + |PrintInt(t.whole)| + SLACK <= LIMIT
      modifies `buffer, `length, buffer, heap
      ensures Ended(before, PrintInt(t.whole)) && offset == |before|
      ensures (buffer == old(buffer) || fresh(buffer)) && Others() == old(Others())
    {
      IntLength(t.whole);
      var d := item.valuedouble;
      if d == 0.0 {
        Store(2, [ZERO], before);
      } else {
        Store(21, PrintInt(item.valueint), before);
      }
    }

    /** A value's text, with offset moved behind it. */
    method PrintThrough(item: Node, depth: nat, fmt: bool, ghost t: Tree, ghost text: bytes)
      requires Shown(t) <= Others()
      requires item == t.node && Seen(t) && Ready(t)
      requires Filled(text) && |text| + |Text(t, depth, fmt)| + SLACK <= LIMIT
      modifies `buffer, `length, `offset, buffer, heap
      ensures Filled(text + Text(t, depth, fmt))
      ensures (buffer == old(buffer) || fresh(buffer)) && Others() == old(Others())
      decreases t, 7
    {
      TextNulFree(t, depth, fmt);
      hide Seen, Ready, Text, Shown;
      var _ := PrintValueTo(item, depth, fmt, t, text);
      var n := Update(text, Text(t, depth, fmt));
      MoveTo(n, text, Text(t, depth, fmt));
    }

    /** The same for a child of t, which stays as it is. */
    method PrintKidTo(child: Node, depth: nat, fmt: bool, ghost t: Tree, ghost i: nat, ghost text: bytes)
      returns (next: Node?)
      requires Shown(t) <= Others()
      requires Seen(t) && i < |t.kids| && child == t.kids[i].node && Ready(t.kids[i])
      requires Filled(text) && |text| + |Text(t.kids[i], depth, fmt)| + SLACK <= LIMIT
      modifies `buffer, `length, `offset, buffer, heap
      ensures Seen(t) && next == if i == |t.kids| - 1 then null else t.kids[i + 1].node
      ensures Filled(text + Text(t.kids[i], depth, fmt))
      ensures (buffer == old(buffer) || fresh(buffer)) && Others() == old(Others())
      decreases t, 0
    {
      hide Others, Seen, Reach, ReachAll, Ready, Text, Filled, Shown;
      ReachAllocated(t);
      ReachKids(t);
      NextKid(t, i);
      ShownKid(t, i, Others());
      PrintThrough(child, depth, fmt, t.kids[i], text);
      NextKid(t, i);
      assert child in Others();
      next := child.next;
    }

    // ---------- Arrays ----------

    /** One element, and the separator when another one follows. */
    method PrintItemTo(child: Node, depth: nat, fmt: bool, ghost t: Tree, ghost i: nat, ghost texts: seq<bytes>,
      ghost head: bytes)
      returns (next: Node?)
      requires Shown(t) <= Others()
      requires Seen(t) && i < |t.kids| && child == t.kids[i].node && ReadyAll(t.kids)
      requires texts == KidTexts(t.kids, depth, fmt) && Filled(head + JoinItems(texts, fmt, i))
      requires |head| + |JoinItems(texts, fmt, |texts|)| + SLACK <= LIMIT
      modifies `buffer, `length, `offset, buffer, heap
      ensures Seen(t) && next == if i == |t.kids| - 1 then null else t.kids[i + 1].node
      ensures Filled(head + JoinItems(texts, fmt, i + 1))
      ensures (buffer == old(buffer) || fresh(buffer)) && Others() == old(Others())
      decreases t, 1
    {
      ItemsGrow(texts, fmt, i + 1, |texts|);
      ItemAdded(texts, fmt, i, head);
      ghost var x := head + JoinItems(texts, fmt, i);
      hide Others, Seen, Text, JoinItems, Filled, KidTexts, ReadyAll, ElemSeparator, Shown;
      next := PrintKidTo(child, depth, fmt, t, i, x);
      if next != null {
        EmitBeside(ElemSeparator(fmt), x + texts[i], t);
      }
    }

    /** Output leaves the tree alone. */
    method EmitBeside(s: bytes, ghost text: bytes, ghost t: Tree)
      requires Filled(text) && |text| + |s| + 1 <= LIMIT && Seen(t)
      modifies `buffer, `length, `offset, buffer, heap
      ensures Filled(text + s) && Seen(t)
      ensures (buffer == old(buffer) || fresh(buffer)) && Others() == old(Others())
    {
      ReachAllocated(t);
      ReachKids(t);
      hide Others, Seen, Reach, ReachAll, Filled;
      EmitEnded(s, text);
    }

    lemma ItemAdded(texts: seq<bytes>, fmt: bool, i: nat, head: bytes)
      requires i < |texts|
      ensures head + JoinItems(texts, fmt, i + 1)
        == head + JoinItems(texts, fmt, i) + texts[i] + (if i + 1 == |texts| then [] else ElemSeparator(fmt))
      ensures head + JoinItems(texts, fmt, i) + texts[i] + [] == head + JoinItems(texts, fmt, i) + texts[i]
    {
    }

    method EmitPlain(s: bytes, ghost text: bytes, ghost t: Tree)
      requires Filled(text) && 1 <= |text| + |s| <= LIMIT && Seen(t)
      modifies `buffer, `length, `offset, buffer, heap
      ensures Filled(text + s) && Seen(t)
      ensures (buffer == old(buffer) || fresh(buffer)) && Others() == old(Others())
    {
      ReachAllocated(t);
      ReachKids(t);
      hide Others, Seen, Reach, ReachAll, Filled;
      Emit(s, text);
    }

    method PrintArrayTo(item: Node, depth: nat, fmt: bool, ghost t: Tree, ghost before: bytes) returns (at: nat)
      requires Shown(t) <= Others()
      requires item == t.node && Seen(t) && Ready(t) && t.kind == KArray
      requires Filled(before) && |before| + |Text(t, depth, fmt)| + SLACK <= LIMIT
      modifies `buffer, `length, `offset, buffer, heap
      ensures Ended(before, Text(t, depth, fmt)) && at == |before|
      ensures (buffer == old(buffer) || fresh(buffer)) && Others() == old(Others())
      decreases t, 3
    {
      ArrayJoined(t, depth, fmt);
      hide Others, Seen, KidTexts, Ready, Text, JoinItems, Filled, Ended, Shown;
      at := offset;
      var numentries := CountBeside(item, t);
      if numentries == 0 {
        Store(3, [LBRACKET, RBRACKET], before);
        return;
      }
      EmitPlain([LBRACKET], before, t);
      PrintItemsTo(item, depth + 1, fmt, t, before + [LBRACKET]);
      CloseArray(before, KidTexts(t.kids, depth + 1, fmt), fmt);
    }

    method CloseArray(ghost before: bytes, ghost texts: seq<bytes>, fmt: bool)
      requires Filled(before + [LBRACKET] + JoinItems(texts, fmt, |texts|))
      requires |before| + |JoinItems(texts, fmt, |texts|)| + 3 <= LIMIT
      modifies `buffer, `length, buffer, heap
      ensures Ended(before, [LBRACKET] + JoinItems(texts, fmt, |texts|) + [RBRACKET])
      ensures (buffer == old(buffer) || fresh(buffer)) && Others() == old(Others())
    {
      ghost var x := before + [LBRACKET] + JoinItems(texts, fmt, |texts|);
      Store(2, [RBRACKET], x);
      assert x + [RBRACKET] == before + ([LBRACKET] + JoinItems(texts, fmt, |texts|) + [RBRACKET]);
    }

    /** The loop over the elements. */
    method PrintItemsTo(item: Node, depth: nat, fmt: bool, ghost t: Tree, ghost head: bytes)
      requires Shown(t) <= Others()
      requires item == t.node && Seen(t) && ReadyAll(t.kids) && Filled(head)
      requires |head| + |JoinItems(KidTexts(t.kids, depth, fmt), fmt, |t.kids|)| + SLACK <= LIMIT
      modifies `buffer, `length, `offset, buffer, heap
      ensures Filled(head + JoinItems(KidTexts(t.kids, depth, fmt), fmt, |t.kids|))
      ensures (buffer == old(buffer) || fresh(buffer)) && Others() == old(Others())
      decreases t, 2
    {
      hide Others, Seen, KidTexts, ReadyAll, Text, JoinItems, Filled, Shown;
      ghost var texts := KidTexts(t.kids, depth, fmt);
      FirstKid(t);
      NoneJoined(texts, fmt);
      assert head + [] == head;
      ShownParts(t, Others());
      assert item in Others();
      var child := item.child;
      ghost var i := 0;
      while child != null
        invariant i <= |t.kids| && child == if i < |t.kids| then t.kids[i].node else null
        invariant Seen(t) && Filled(head + JoinItems(texts, fmt, i))
        invariant (buffer == old(buffer) || fresh(buffer)) && Others() == old(Others())
        decreases |t.kids| - i
      {
        child := PrintItemTo(child, depth, fmt, t, i, texts, head);
        i := i + 1;
      }
    }

    lemma NoneJoined(texts: seq<bytes>, fmt: bool)
      ensures JoinItems(texts, fmt, 0) == []
    {
    }

    // ---------- Objects ----------

    /** One member: tabs, name, colon, value, and what separates it from the next. */
    ghost predicate IsMember(k: Tree, name: bytes, text: bytes, depth: nat, fmt: bool) {
      Ready(k) && k.name != null && name == PrintString(k.name.s) && text == Text(k, depth, fmt)
    }

    method PrintMemberTo(child: Node, depth: nat, fmt: bool, ghost t: Tree, ghost i: nat, ghost nms: seq<bytes>,
      ghost texts: seq<bytes>, ghost head: bytes) returns (next: Node?)
      requires Shown(t) <= Others()
      requires Seen(t) && i < |t.kids| == |texts| == |nms| && child == t.kids[i].node && depth > 0
      requires IsMember(t.kids[i], nms[i], texts[i], depth, fmt)
      requires Filled(head + JoinMembers(nms, texts, depth, fmt, i))
      requires |head| + |JoinMembers(nms, texts, depth, fmt, |texts|)| + SLACK <= LIMIT
      modifies `buffer, `length, `offset, buffer, heap
      ensures Seen(t) && next == if i == |t.kids| - 1 then null else t.kids[i + 1].node
      ensures Filled(head + JoinMembers(nms, texts, depth, fmt, i + 1))
      ensures (buffer == old(buffer) || fresh(buffer)) && Others() == old(Others())
      decreases t, 2
    {
      ghost var x := head + JoinMembers(nms, texts, depth, fmt, i);
      ghost var z, tail := MemberAdded(nms, texts, depth, fmt, i, head, x);
      hide *;
      next := PrintNamedTo(child, depth, fmt, t, i, nms[i], texts[i], x);
      EmitTail(next == null, fmt, z, tail, t);
    }

    /** Behind a value: a comma unless it is the last, and a line break when formatted. */
    method EmitTail(last: bool, fmt: bool, ghost z: bytes, ghost tail: bytes, ghost t: Tree)
      requires tail == (if last then [] else [COMMA]) + LineBreak(fmt)
      requires Filled(z) && |z| + |tail| + 1 <= LIMIT && Seen(t)
      modifies `buffer, `length, `offset, buffer, heap
      ensures Filled(z + tail) && Seen(t)
      ensures (buffer == old(buffer) || fresh(buffer)) && Others() == old(Others())
    {
      hide Others, Filled, Seen, LineBreak;
      EmitBeside((if last then [] else [COMMA]) + LineBreak(fmt), z, t);
    }

    /** A member without what separates it from the next. */
    function NamedText(name: bytes, text: bytes, depth: nat, fmt: bool): bytes {
      Indent(depth, fmt) + name + NameSeparator(fmt) + text
    }

    lemma MemberAdded(nms: seq<bytes>, texts: seq<bytes>, depth: nat, fmt: bool, i: nat, head: bytes, x: bytes)
      returns (z: bytes, tail: bytes)
      requires i < |texts| == |nms| && x == head + JoinMembers(nms, texts, depth, fmt, i)
      ensures z == x + NamedText(nms[i], texts[i], depth, fmt)
      ensures tail == (if i + 1 == |texts| then [] else [COMMA]) + LineBreak(fmt)
      ensures head + JoinMembers(nms, texts, depth, fmt, i + 1) == z + tail
      ensures |z| + |tail| <= |head| + |JoinMembers(nms, texts, depth, fmt, |texts|)|
    {
      hide JoinMembers, Indent, NameSeparator, LineBreak;
      MembersGrow(nms, texts, depth, fmt, i + 1, |texts|);
      z := x + NamedText(nms[i], texts[i], depth, fmt);
      MemberSplit(head, nms, texts, depth, fmt, i);
      var comma := if i + 1 == |texts| then [] else [COMMA];
      tail := comma + LineBreak(fmt);
      var named := NamedText(nms[i], texts[i], depth, fmt);
      assert MemberText(nms[i], texts[i], depth, fmt, i + 1 == |texts|) == named + comma + LineBreak(fmt);
      assert x + (named + comma + LineBreak(fmt)) == z + (comma + LineBreak(fmt));
    }

    method PrintNamedTo(child: Node, depth: nat, fmt: bool, ghost t: Tree, ghost i: nat, ghost nm: bytes,
      ghost tx: bytes, ghost x: bytes) returns (next: Node?)
      requires Shown(t) <= Others()
      requires Seen(t) && i < |t.kids| && child == t.kids[i].node && depth > 0
      requires IsMember(t.kids[i], nm, tx, depth, fmt)
      requires Filled(x) && |x| + |NamedText(nm, tx, depth, fmt)| + SLACK <= LIMIT
      modifies `buffer, `length, `offset, buffer, heap
      ensures Seen(t) && next == if i == |t.kids| - 1 then null else t.kids[i + 1].node
      ensures Filled(x + NamedText(nm, tx, depth, fmt))
      ensures (buffer == old(buffer) || fresh(buffer)) && Others() == old(Others())
      decreases t, 1
    {
      hide Others, Seen, Ready, Text, Filled, PrintString, Shown;
      ghost var y := x + Indent(depth, fmt) + nm + NameSeparator(fmt);
      assert y + tx == x + NamedText(nm, tx, depth, fmt);
      PrintNameTo(child, depth, fmt, t, i, x);
      next := PrintKidTo(child, depth, fmt, t, i, y);
    }

    /** The tabs, the name and the colon of a member. */
    method PrintNameTo(child: Node, depth: nat, fmt: bool, ghost t: Tree, ghost i: nat, ghost x: bytes)
      requires Shown(t) <= Others()
      requires Seen(t) && i < |t.kids| && child == t.kids[i].node && t.kids[i].name != null && depth > 0
      requires Filled(x)
      requires |x| + |Indent(depth, fmt)| + |PrintString(t.kids[i].name.s)| + |NameSeparator(fmt)| + 1 <= LIMIT
      modifies `buffer, `length, `offset, buffer, heap
      ensures Seen(t) && Filled(x + Indent(depth, fmt) + PrintString(t.kids[i].name.s) + NameSeparator(fmt))
      ensures (buffer == old(buffer) || fresh(buffer)) && Others() == old(Others())
    {
      ReachAllocated(t);
      ReachKids(t);
      NextKid(t, i);
      KidNamed(t.kids[i]);
      ShownKid(t, i, Others());
      hide Others, Seen, Reach, ReachAll, Filled, PrintString, Shown;
      assert child in Others();
      WriteName(child.name, depth, fmt, x);
    }

    lemma KidNamed(k: Tree)
      requires Seen(k)
      ensures k.node.name == k.name
    {
    }

    method WriteName(name: CStr, depth: nat, fmt: bool, ghost x: bytes)
      requires name in Others()
      requires Filled(x) && depth > 0
      requires |x| + |Indent(depth, fmt)| + |PrintString(name.s)| + |NameSeparator(fmt)| + 1 <= LIMIT
      modifies `buffer, `length, `offset, buffer, heap
      ensures Filled(x + Indent(depth, fmt) + PrintString(name.s) + NameSeparator(fmt))
      ensures (buffer == old(buffer) || fresh(buffer)) && Others() == old(Others())
    {
      NameNulFree(name.s);
      assert x + [] == x;
      ghost var y := x + Indent(depth, fmt);
      hide Others, Filled, PrintString;
      if fmt {
        Emit(Tabs(depth), x);
      }
      PrintStringTo(name, y);
      var n := Update(y, PrintString(name.s));
      MoveTo(n, y, PrintString(name.s));
      Emit(NameSeparator(fmt), y + PrintString(name.s));
    }

    /** p->offset = update(p). */
    method MoveTo(n: nat, ghost before: bytes, ghost text: bytes)
      requires Ended(before, text) && n == |before| + |text|
      modifies `offset
      ensures Filled(before + text)
    {
      offset := n;
    }

    ghost predicate AreMembers(ts: seq<Tree>, nms: seq<bytes>, texts: seq<bytes>, depth: nat, fmt: bool) {
      |ts| == |nms| == |texts| && forall i | 0 <= i < |ts| :: IsMember(ts[i], nms[i], texts[i], depth, fmt)
    }

    /** The loop over the members; depth is theirs. */
    method PrintMembersTo(item: Node, depth: nat, fmt: bool, ghost t: Tree, ghost nms: seq<bytes>,
      ghost texts: seq<bytes>, ghost head: bytes)
      requires Shown(t) <= Others()
      requires item == t.node && Seen(t) && AreMembers(t.kids, nms, texts, depth, fmt) && Filled(head) && depth > 0
      requires |head| + |JoinMembers(nms, texts, depth, fmt, |texts|)| + SLACK <= LIMIT
      modifies `buffer, `length, `offset, buffer, heap
      ensures Filled(head + JoinMembers(nms, texts, depth, fmt, |texts|))
      ensures (buffer == old(buffer) || fresh(buffer)) && Others() == old(Others())
      decreases t, 3
    {
      hide Others, IsMember, Seen, JoinMembers, Filled, Shown;
      FirstKid(t);
      JoinNone(nms, texts, depth, fmt);
      assert head + [] == head;
      ShownParts(t, Others());
      assert item in Others();
      var child := item.child;
      ghost var i := 0;
      while child != null
        invariant i <= |t.kids| && child == if i < |t.kids| then t.kids[i].node else null
        invariant Seen(t) && Filled(head + JoinMembers(nms, texts, depth, fmt, i))
        invariant (buffer == old(buffer) || fresh(buffer)) && Others() == old(Others())
        decreases |t.kids| - i
      {
        child := PrintMemberTo(child, depth, fmt, t, i, nms, texts, head);
        i := i + 1;
      }
    }

    lemma MembersAre(ts: seq<Tree>, depth: nat, fmt: bool)
      requires ReadyAll(ts) && NamedAll(ts)
      ensures AreMembers(ts, NameTexts(ts), KidTexts(ts, depth, fmt), depth, fmt)
    {
    }

    /** The closing brace; depth is that of the members. */
    method CloseObject(depth: nat, fmt: bool, ghost before: bytes, ghost body: bytes)
      requires depth > 0 && Filled(before + ([LBRACE] + LineBreak(fmt)) + body)
      requires |before| + |Braced(body, depth - 1, fmt)| + SLACK <= LIMIT
      modifies `buffer, `length, buffer, heap
      ensures Ended(before, Braced(body, depth - 1, fmt))
      ensures (buffer == old(buffer) || fresh(buffer)) && Others() == old(Others())
    {
      ghost var x := before + ([LBRACE] + LineBreak(fmt)) + body;
      ghost var closing := Indent(depth - 1, fmt) + [RBRACE];
      Store(if fmt then depth + 1 else 2, Indent(depth - 1, fmt) + [RBRACE], x);
      assert x + closing == before + Braced(body, depth - 1, fmt);
    }

    /** The index returned is one that nested calls do not use: the loop that writes the closing tabs has
        overwritten it. At the top it is the start of the text all the same. */
    method PrintObjectTo(item: Node, depth: nat, fmt: bool, ghost t: Tree, ghost before: bytes) returns (at: nat)
      requires Shown(t) <= Others()
      requires item == t.node && Seen(t) && Ready(t) && t.kind == KObject
      requires Filled(before) && |before| + |Text(t, depth, fmt)| + SLACK <= LIMIT
      modifies `buffer, `length, `offset, buffer, heap
      ensures Ended(before, Text(t, depth, fmt)) && at == if t.kids != [] && fmt then depth else |before|
      ensures (buffer == old(buffer) || fresh(buffer)) && Others() == old(Others())
      decreases t, 5
    {
      ObjectJoined(t, depth, fmt);
      at := offset;
      hide Others, Seen, Braced, KidTexts, NameTexts, Ready, Text, JoinMembers, Filled, Ended, Shown;
      var numentries := CountBeside(item, t);
      if numentries == 0 {
        Store(if fmt then depth + 4 else 3, Braced([], depth - 1, fmt), before);
        return;
      }
      FillObject(item, depth + 1, fmt, t, before);
      if fmt {
        at := depth;
      }
    }

    method CountBeside(item: Node, ghost t: Tree) returns (n: nat)
      requires Shown(t) <= Others()
      requires item == t.node && Seen(t)
      ensures n == |t.kids| && Seen(t)
    {
      KidLinks(t);
      ReachAllocated(t);
      ReachKids(t);
      ShownParts(t, Others());
      ShownRoots(t, Others());
      hide Seen, Siblings, Reach, ReachAll, Shown, Others;
      assert item in Others() && forall k | k in Roots(t.kids) :: k in Others();
      n := GetArraySize(item, Roots(t.kids));
    }

    method FillObject(item: Node, depth: nat, fmt: bool, ghost t: Tree, ghost before: bytes)
      requires Shown(t) <= Others()
      requires item == t.node && Seen(t) && ReadyAll(t.kids) && NamedAll(t.kids) && depth > 0 && Filled(before)
      requires var body := JoinMembers(NameTexts(t.kids), KidTexts(t.kids, depth, fmt), depth, fmt, |t.kids|);
        |before| + |Braced(body, depth - 1, fmt)| + SLACK <= LIMIT
      modifies `buffer, `length, `offset, buffer, heap
      ensures var body := JoinMembers(NameTexts(t.kids), KidTexts(t.kids, depth, fmt), depth, fmt, |t.kids|);
        Ended(before, Braced(body, depth - 1, fmt))
      ensures (buffer == old(buffer) || fresh(buffer)) && Others() == old(Others())
      decreases t, 4
    {
      ghost var body := JoinMembers(NameTexts(t.kids), KidTexts(t.kids, depth, fmt), depth, fmt, |t.kids|);
      MembersAre(t.kids, depth, fmt);
      hide Others, Seen, KidTexts, NameTexts, JoinMembers, Filled, Ended, ReadyAll, NamedAll, Shown, AreMembers;
      EmitBeside([LBRACE] + LineBreak(fmt), before, t);
      PrintMembersTo(item, depth, fmt, t, NameTexts(t.kids), KidTexts(t.kids, depth, fmt),
        before + ([LBRACE] + LineBreak(fmt)));
      CloseObject(depth, fmt, before, body);
    }

    /** print_value into the buffer. */
    method PrintValueTo(item: Node, depth: nat, fmt: bool, ghost t: Tree, ghost before: bytes) returns (at: nat)
      requires Shown(t) <= Others()
      requires item == t.node && Seen(t) && Ready(t)
      requires Filled(before) && |before| + |Text(t, depth, fmt)| + SLACK <= LIMIT
      modifies `buffer, `length, `offset, buffer, heap
      ensures Ended(before, Text(t, depth, fmt))
      ensures at == if t.kind == KObject && t.kids != [] && fmt then depth else |before|
      ensures (buffer == old(buffer) || fresh(buffer)) && Others() == old(Others())
      decreases t, 6
    {
      FieldsShown(t);
      LeafText(t, depth, fmt);
      at := offset;
      ShownParts(t, Others());
      hide Seen, Text, Shown, Others;
      assert item in Others();
      match item.kind
      case KNull => Store(5, NULL_WORD, before);
      case KFalse => Store(6, FALSE_WORD, before);
      case KTrue => Store(5, TRUE_WORD, before);
      case KNumber => PrintNumberTo(item, t, before);
      case KString => PrintStringTo(item.valuestring, before);
      case KArray => at := PrintArrayTo(item, depth, fmt, t, before);
      case KObject => at := PrintObjectTo(item, depth, fmt, t, before);
    }
  }

  /** cJSON_PrintBuffered: for any positive first size, the text of the allocating printer, and one block of
      memory that holds it. */
  method PrintBuffered(heap: Heap, item: Node, prebuffer: nat, fmt: bool, ghost t: Tree)
    returns (out: array<byte>, at: nat)
    requires item == t.node && Seen(t) && Ready(t) && prebuffer > 0 && Shown(t) <= heap.live
    requires |Text(t, 0, fmt)| + SLACK <= LIMIT
    modifies heap
    ensures fresh(out) && heap.live == old(heap.live) + {out}
    ensures at == 0 && Wrote(out, [], Text(t, 0, fmt))
  {
    ReachAllocated(t);
    ReachKids(t);
    hide Seen, Text, Reach, ReachAll, Shown;
    var p := new PrintBuffer(heap, prebuffer);
    at := p.PrintValueTo(item, 0, fmt, t, []);
    out := p.buffer;
  }
}
