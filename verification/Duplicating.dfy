/** cJSON_Duplicate: a copy that shares nothing with the original, also below references. All that the original
    shows must still be live: every block that is read is. */
module Duplicating {
  import opened Nodes
  import opened Building

  predicate SameText(a: CStr?, b: CStr?) {
    if a == null || b == null then a == b else a.s == b.s
  }

  /** The same contents, node by node; the copy has no references. */
  ghost predicate Copies(t: Tree, u: Tree) {
    CopiesRoot(t, u) && CopiesAll(t.kids, u.kids)
  }

  ghost predicate CopiesRoot(t: Tree, u: Tree) {
    && u.kind == t.kind && !u.borrowed && u.whole == t.whole && u.number == t.number
    && SameText(t.text, u.text) && SameText(t.name, u.name)
  }

  ghost predicate CopiesAll(ts: seq<Tree>, us: seq<Tree>) {
    |ts| == |us| && forall i | 0 <= i < |ts| :: Copies(ts[i], us[i])
  }

  ghost predicate CopiesFirst(ts: seq<Tree>, us: seq<Tree>) {
    |us| <= |ts| && forall i | 0 <= i < |us| :: Copies(ts[i], us[i])
  }

  lemma CopiesOne(ts: seq<Tree>, us: seq<Tree>, u: Tree)
    requires CopiesFirst(ts, us) && |us| < |ts| && Copies(ts[|us|], u)
    ensures CopiesFirst(ts, us + [u])
  {
  }

  lemma CopiesNone(ts: seq<Tree>)
    ensures CopiesFirst(ts, [])
  {
  }

  lemma CopiesEach(ts: seq<Tree>, us: seq<Tree>)
    requires CopiesFirst(ts, us) && |us| == |ts|
    ensures CopiesAll(ts, us)
  {
  }

  /** A copy has the same value. */
  lemma {:induction false} CopyValue(t: Tree, u: Tree)
    requires Copies(t, u) && Typed(t)
    ensures Typed(u) && Value(u) == Value(t)
  {
    match t.kind
    case KArray =>
      forall i | 0 <= i < |t.kids| ensures Typed(u.kids[i]) && Value(u.kids[i]) == Value(t.kids[i]) {
        CopyValue(t.kids[i], u.kids[i]);
      }
      assert ItemValues(t.kids) == ItemValues(u.kids);
      ArrayValue(t);
      ArrayValue(u);
    case KObject =>
      forall i | 0 <= i < |t.kids|
        ensures Typed(u.kids[i]) && Value(u.kids[i]) == Value(t.kids[i]) && SameText(t.kids[i].name, u.kids[i].name)
      {
        CopyValue(t.kids[i], u.kids[i]);
        assert CopiesRoot(t.kids[i], u.kids[i]);
      }
      assert MemberValues(t.kids) == MemberValues(u.kids);
      ObjectValue(t);
      ObjectValue(u);
    case _ =>
  }

  ghost predicate Shows(t: Tree)
    reads t.node`kind, t.node`name, t.node`valuestring, t.node`valueint, t.node`valuedouble
  {
    && t.node.kind == t.kind && t.node.name == t.name && t.node.valuestring == t.text
    && t.node.valueint == t.whole && t.node.valuedouble == t.number
  }

  /** A copy of a string, where there is one. */
  method CopyText(heap: Heap, s: CStr?) returns (c: CStr?, ghost got: set<object>)
    requires s != null ==> s in heap.live
    modifies heap
    ensures SameText(s, c) && got == (if c == null then {} else {c})
    ensures fresh(got) && heap.live == old(heap.live) + got
  {
    c, got := null, {};
    if s != null {
      c := heap.NewString(s.s);
      got := {c};
    }
  }

  lemma OwnBlocksAre(u: Tree, text: set<object>, name: set<object>)
    requires !u.borrowed && text == (if u.text == null then {} else {u.text})
      && name == (if u.name == null then {} else {u.name})
    ensures OwnBlocks(u) == {u.node} + text + name
  {
  }

  /** Copies of both strings of a node. */
  method CopyStrings(heap: Heap, item: Node, ghost t: Tree)
    returns (valuestring: CStr?, name: CStr?, ghost textBlock: set<object>, ghost nameBlock: set<object>)
    requires t.node == item && Shows(t) && RootShown(t) <= heap.live
    modifies heap
    ensures SameText(t.text, valuestring) && textBlock == (if valuestring == null then {} else {valuestring})
    ensures SameText(t.name, name) && nameBlock == (if name == null then {} else {name})
    ensures fresh(textBlock + nameBlock) && heap.live == old(heap.live) + (textBlock + nameBlock)
    ensures name != null ==> name != valuestring
  {
    RootParts(t, heap.live);
    hide SameText, RootShown;
    assert item in heap.live;
    valuestring, textBlock := CopyText(heap, item.valuestring);
    name, nameBlock := CopyText(heap, item.name);
  }

  /** The fields of a new node. */
  method FillCopy(newitem: Node, item: Node, valuestring: CStr?, name: CStr?, ghost t: Tree) returns (ghost u: Tree)
    requires t.node == item && Shows(t) && newitem != item && newitem.Zeroed()
    requires SameText(t.text, valuestring) && SameText(t.name, name) && (name != null ==> name != valuestring)
    modifies newitem
    ensures u == Tree(newitem, t.kind, false, name, valuestring, t.whole, t.number, [])
    ensures WellBuilt(u) && CopiesRoot(t, u) && newitem.next == null && newitem.prev == null
  {
    newitem.kind, newitem.valueint, newitem.valuedouble, newitem.valuestring, newitem.name :=
      item.kind, item.valueint, item.valuedouble, valuestring, name;
    u := Tree(newitem, t.kind, false, name, valuestring, t.whole, t.number, []);
    Childless(u);
  }

  /** A new node with the fields and copies of the strings of another one. */
  method CopyFields(heap: Heap, item: Node, ghost t: Tree)
    returns (newitem: Node, ghost u: Tree, ghost got: set<object>)
    requires t.node == item && Shows(t) && RootShown(t) <= heap.live
    modifies heap
    ensures newitem == u.node && WellBuilt(u) && u.kids == [] && CopiesRoot(t, u)
    ensures newitem.next == null && newitem.prev == null && fresh(newitem)
    ensures got == OwnBlocks(u) && fresh(got) && heap.live == old(heap.live) + got
  {
    hide WellBuilt, SameText, RootShown, CopiesRoot;
    newitem := heap.NewNode();
    var valuestring, name;
    ghost var textBlock, nameBlock;
    valuestring, name, textBlock, nameBlock := CopyStrings(heap, item, t);
    RootParts(t, heap.live);
    assert item in heap.live;
    u := FillCopy(newitem, item, valuestring, name, t);
    OwnBlocksAre(u, textBlock, nameBlock);
    got := {newitem} + textBlock + nameBlock;
  }

  method Duplicate(heap: Heap, item: Node?, recurse: bool, ghost t: Tree) returns (c: Node?, ghost u: Tree)
    requires item != null ==> item == t.node && Shows(t) && RootShown(t) <= heap.live
    requires item != null && recurse ==> Seen(t) && Shown(t) <= heap.live
    modifies heap
    ensures item == null ==> c == null && heap.live == old(heap.live)
    ensures item != null ==>
      && c == u.node && WellBuilt(u) && c.next == null && c.prev == null
      && fresh(c) && fresh(Reach(u)) && fresh(Owned(u)) && heap.live == old(heap.live) + Owned(u)
      && (if recurse then Copies(t, u) else CopiesRoot(t, u) && u.kids == [])
    decreases t, 3
  {
    u := t;
    if item == null {
      return null, u;
    }
    ReachAllocated(t);
    ReachKids(t);
    hide Holds, Seen, WellBuilt, Reach, ReachAll, Owned, OwnBlocks, SameText, Copies, CopiesAll, Shown, RootShown,
      Shows, Off;
    var newitem;
    ghost var own, got, nodes;
    newitem, u, own := CopyFields(heap, item, t);
    Bare(u);
    if !recurse {
      return newitem, u;
    }
    u, got, nodes := CopyKids(heap, item, newitem, t, u);
    CopiesWhole(t, u);
    c := newitem;
  }

  lemma CopiesWhole(t: Tree, u: Tree)
    requires CopiesRoot(t, u) && CopiesAll(t.kids, u.kids)
    ensures Copies(t, u)
  {
  }

  /** A node that is not one of the original's. */
  ghost predicate Off(n: Node?, t: Tree) {
    n != null ==> n !in Reach(t)
  }

  /** The loop over the children. */
  method CopyKids(heap: Heap, item: Node, newitem: Node, ghost t: Tree, ghost u0: Tree)
    returns (ghost u: Tree, ghost got: set<object>, ghost nodes: set<Node>)
    requires item == t.node && Seen(t) && Shown(t) <= heap.live
    requires WellBuilt(u0) && newitem == u0.node && u0.kids == [] && Off(newitem, t)
    modifies heap, newitem`child
    ensures WellBuilt(u) && u == u0.(kids := u.kids) && CopiesAll(t.kids, u.kids)
    ensures Gained(u0, u, got, nodes)
    ensures fresh(got) && fresh(nodes) && heap.live == old(heap.live) + got
    decreases t, 2
  {
    hide Gained, Off, Holds, Seen, Shown, WellBuilt, Reach, ReachAll, Owned, Copies, CopiesFirst, CopiesAll;
    FirstKid(t);
    CopiesNone(t.kids);
    NothingGained(u0, t);
    ShownParts(t, heap.live);
    assert item in heap.live;
    var cptr, nptr: Node? := item.child, null;
    u, got, nodes := u0, {}, {};
    while cptr != null
      invariant |u.kids| <= |t.kids| && cptr == if |u.kids| < |t.kids| then t.kids[|u.kids|].node else null
      invariant Seen(t) && WellBuilt(u) && u == u0.(kids := u.kids) && CopiesFirst(t.kids, u.kids)
      invariant nptr == if u.kids == [] then null else u.kids[|u.kids| - 1].node
      invariant (nptr != null ==> fresh(nptr)) && Off(nptr, t)
      invariant Gained(u0, u, got, nodes)
      invariant fresh(got) && fresh(nodes) && heap.live == old(heap.live) + got
      decreases |t.kids| - |u.kids|
    {
      ghost var blocks, reached;
      cptr, nptr, u, blocks, reached := CopyNext(heap, cptr, newitem, nptr, t, u0, u, got, nodes);
      got, nodes := got + blocks, nodes + reached;
    }
    CopiesEach(t.kids, u.kids);
  }

  ghost predicate Gained(u: Tree, v: Tree, blocks: set<object>, nodes: set<Node>) {
    Owned(v) == Owned(u) + blocks && Reach(v) == Reach(u) + nodes
  }

  lemma NothingGained(u: Tree, t: Tree)
    ensures Gained(u, u, {}, {}) && Off(null, t)
  {
  }

  lemma GainedMore(u: Tree, v: Tree, w: Tree, a: set<object>, m: set<Node>, b: set<object>, n: set<Node>)
    requires Gained(u, v, a, m) && Gained(v, w, b, n)
    ensures Gained(u, w, a + b, m + n)
  {
    hide Owned, Reach;
  }

  /** One turn of the loop: the copy of one child and the original's next one. */
  method CopyNext(heap: Heap, cptr: Node, newitem: Node, nptr: Node?, ghost t: Tree, ghost u0: Tree, ghost u: Tree,
    ghost got: set<object>, ghost nodes: set<Node>)
    returns (next: Node?, newchild: Node, ghost u': Tree, ghost blocks: set<object>, ghost reached: set<Node>)
    requires Seen(t) && Off(newitem, t) && Off(nptr, t) && Shown(t) <= heap.live
    requires CopiesFirst(t.kids, u.kids) && |u.kids| < |t.kids| && cptr == t.kids[|u.kids|].node
    requires WellBuilt(u) && newitem == u.node && nptr == if u.kids == [] then null else u.kids[|u.kids| - 1].node
    requires u == u0.(kids := u.kids) && Gained(u0, u, got, nodes)
    modifies heap, newitem`child, (if nptr == null then {} else {nptr})`next
    ensures Seen(t) && next == if |u'.kids| < |t.kids| then t.kids[|u'.kids|].node else null
    ensures u' == u0.(kids := u'.kids) && |u'.kids| == |u.kids| + 1 && newchild == u'.kids[|u.kids|].node
    ensures WellBuilt(u') && CopiesFirst(t.kids, u'.kids) && Off(newchild, t)
    ensures Gained(u0, u', got + blocks, nodes + reached)
    ensures fresh(newchild) && fresh(blocks) && fresh(reached) && heap.live == old(heap.live) + blocks
    decreases t, 1
  {
    NextKid(t, |u.kids|);
    ShownKid(t, |u.kids|, heap.live);
    hide Holds, Seen, WellBuilt, Reach, ReachAll, Owned, Copies, CopiesFirst, Shown;
    ghost var k;
    newchild, u', k := CopyBeside(heap, cptr, newitem, nptr, t.kids[|u.kids|], u, t);
    CopiesOne(t.kids, u.kids, k);
    NextKid(t, |u.kids|);
    assert cptr in heap.live;
    next := cptr.next;
    blocks, reached := Owned(k), Reach(k);
    GainedMore(u0, u, u', got, nodes, blocks, reached);
  }

  /** Making the copy leaves the original alone. */
  method CopyBeside(heap: Heap, cptr: Node, newitem: Node, nptr: Node?, ghost s: Tree, ghost u: Tree, ghost t: Tree)
    returns (newchild: Node, ghost u': Tree, ghost k: Tree)
    requires cptr == s.node && Seen(s) && s in t.kids && Seen(t) && Off(newitem, t) && Off(nptr, t)
    requires Shown(s) <= heap.live
    requires WellBuilt(u) && newitem == u.node && nptr == if u.kids == [] then null else u.kids[|u.kids| - 1].node
    modifies heap, newitem`child, (if nptr == null then {} else {nptr})`next
    ensures Seen(t) && Off(newchild, t)
    ensures newchild == k.node && Copies(s, k) && WellBuilt(u') && u' == u.(kids := u.kids + [k])
    ensures Owned(u') == Owned(u) + Owned(k) && Reach(u') == Reach(u) + Reach(k)
    ensures fresh(newchild) && fresh(Owned(k)) && fresh(Reach(k)) && heap.live == old(heap.live) + Owned(k)
    decreases t, 0
  {
    ReachAllocated(t);
    ReachKids(t);
    hide Holds, Seen, WellBuilt, Reach, ReachAll, Owned, Copies, Shown;
    newchild, u', k := CopyChild(heap, cptr, newitem, nptr, s, u);
  }

  lemma ChildShows(s: Tree, live: set<object>)
    requires Seen(s) && Shown(s) <= live
    ensures Shows(s) && RootShown(s) <= live
  {
    ShownParts(s, live);
  }

  /** A copy of one child, linked behind the copies made so far. */
  method CopyChild(heap: Heap, cptr: Node, newitem: Node, nptr: Node?, ghost s: Tree, ghost u: Tree)
    returns (newchild: Node, ghost u': Tree, ghost k: Tree)
    requires cptr == s.node && Seen(s) && Shown(s) <= heap.live
    requires WellBuilt(u) && newitem == u.node && nptr == if u.kids == [] then null else u.kids[|u.kids| - 1].node
    modifies heap, newitem`child, (if nptr == null then {} else {nptr})`next
    ensures newchild == k.node && Copies(s, k) && WellBuilt(u') && u' == u.(kids := u.kids + [k])
    ensures Owned(u') == Owned(u) + Owned(k) && Reach(u') == Reach(u) + Reach(k)
    ensures fresh(newchild) && fresh(Owned(k)) && fresh(Reach(k)) && heap.live == old(heap.live) + Owned(k)
    decreases s, 4
  {
    ReachAllocated(u);
    OwnedAllocated(u);
    ReachAllAllocated(u.kids);
    hide Holds, Seen, Siblings, WellBuilt, Reach, ReachAll, Owned, Copies, Shown, RootShown, Shows;
    ChildShows(s, heap.live);
    newchild, k := Duplicate(heap, cptr, true, s);
    LinkCopy(newitem, nptr, newchild, u, k);
    u' := u.(kids := u.kids + [k]);
  }

  /** Linking the finished copy k behind the copies made so far. */
  method LinkCopy(newitem: Node, nptr: Node?, newchild: Node, ghost u: Tree, ghost k: Tree)
    requires WellBuilt(u) && newitem == u.node && nptr == if u.kids == [] then null else u.kids[|u.kids| - 1].node
    requires WellBuilt(k) && newchild == k.node && newchild.next == null && newchild.prev == null
    requires Owned(u) !! Owned(k)
    modifies newitem`child, (if nptr == null then {} else {nptr})`next, newchild`prev
    ensures var u' := u.(kids := u.kids + [k]);
      WellBuilt(u') && Owned(u') == Owned(u) + Owned(k) && Reach(u') == Reach(u) + Reach(k)
  {
    Reopened(u);
    Strangers(u, k);
    StrangeKids(u, k);
    hide Holds, Seen, WellBuilt, Growing, Siblings, OwnedAll, Owned, ReachAll, Reach, BelowAll, OwnBlocks, Roots;
    LinkBetween(newitem, nptr, newchild, u.kids, k);
    Joined(u, k);
  }

  method LinkBetween(newitem: Node, nptr: Node?, newchild: Node, ghost kids: seq<Tree>, ghost k: Tree)
    requires Siblings(newitem, Roots(kids)) && Growing(newitem, kids) && WellBuilt(k) && newchild == k.node
    requires nptr == if kids == [] then null else kids[|kids| - 1].node
    requires newchild.next == null && newchild.prev == null && newchild !in Roots(kids)
    requires newitem !in Reach(k) && newchild !in ReachAll(kids) && newchild !in ReachAll(k.kids)
    requires nptr != null ==> nptr !in BelowAll(kids) && nptr !in Reach(k)
    modifies newitem`child, (if nptr == null then {} else {nptr})`next, newchild`prev
    ensures Siblings(newitem, Roots(kids) + [newchild]) && Growing(newitem, kids) && WellBuilt(k)
  {
    ReachFacts(kids);
    ReachKids(k);
    ReachAllAllocated(kids);
    ReachAllocated(k);
    assert newitem !in ReachAll(kids);
    hide WellBuilt, Growing, Siblings, ReachAll, Reach, BelowAll, Roots;
    LinkLast(newitem, nptr, newchild, Roots(kids));
  }

  lemma Joined(u: Tree, k: Tree)
    requires Labelled(u) && Siblings(u.node, Roots(u.kids) + [k.node]) && Growing(u.node, u.kids) && WellBuilt(k)
    requires u.node !in Reach(k) && OwnedAll(u.kids) !! Owned(k)
    requires forall o | o in OwnBlocks(u) :: o !in OwnedAll(u.kids) && o !in Owned(k)
    ensures var u' := u.(kids := u.kids + [k]);
      WellBuilt(u') && Owned(u') == Owned(u) + Owned(k) && Reach(u') == Reach(u) + Reach(k)
  {
    Regained(u, k);
    Snoc(u.kids, k);
    hide Holds, Seen, WellBuilt, Growing, Siblings, OwnedAll, Owned, ReachAll, Reach, BelowAll, OwnBlocks, Roots;
    GrowOne(u.node, u.kids, k);
    Appended(u, k, u.(kids := u.kids + [k]));
  }

  /** Two finished trees without a common block: what linking one into the other touches is elsewhere. */
  lemma Strangers(u: Tree, k: Tree)
    requires Plain(u) && Separate(u) && Plain(k) && Separate(k) && Owned(u) !! Owned(k)
    ensures u.node !in Reach(k) && k.node !in ReachAll(u.kids) && k.node !in ReachAll(k.kids)
    ensures forall n | n in ReachAll(u.kids) :: n !in Reach(k)
    ensures OwnedAll(u.kids) !! Owned(k) && forall o | o in OwnBlocks(u) :: o !in Owned(k)
  {
    PlainReach(u);
    PlainReach(k);
    OwnParts(u);
    OwnParts(k);
    hide Owned, OwnedAll, OwnBlocks, Reach, ReachAll, Plain, Separate;
  }

  lemma StrangeKids(u: Tree, k: Tree)
    requires Plain(u) && Separate(u)
    requires k.node !in ReachAll(u.kids) && forall n | n in ReachAll(u.kids) :: n !in Reach(k)
    ensures k.node !in Roots(u.kids) && Roots(u.kids + [k]) == Roots(u.kids) + [k.node]
    ensures forall i | 0 <= i < |u.kids| :: u.kids[i].node !in BelowAll(u.kids) && u.kids[i].node !in Reach(k)
  {
    RootsApart(u.kids);
    RootsWithin(u.kids);
    hide Reach, ReachAll, BelowAll, Plain, Separate, NoRepeats;
    assert Roots(u.kids + [k]) == Roots(u.kids) + [k.node];
  }

  lemma OwnParts(t: Tree)
    requires Plain(t) && Separate(t)
    ensures t.node in Owned(t) && t.node !in OwnedAll(t.kids) && OwnedAll(t.kids) <= Owned(t)
    ensures forall o | o in OwnBlocks(t) :: o in Owned(t)
  {
  }

  lemma RootsWithin(ts: seq<Tree>)
    ensures forall i | 0 <= i < |ts| :: ts[i].node in ReachAll(ts)
  {
    forall i | 0 <= i < |ts| ensures ts[i].node in ReachAll(ts) {
      assert ts[i].node in Reach(ts[i]);
    }
  }

  lemma Regained(u: Tree, k: Tree)
    requires !u.borrowed
    ensures var u' := u.(kids := u.kids + [k]); Owned(u') == Owned(u) + Owned(k) && Reach(u') == Reach(u) + Reach(k)
  {
    Snoc(u.kids, k);
    SameBlocks(u, u.kids + [k]);
    hide OwnedAll, ReachAll, OwnBlocks;
  }

  lemma SameBlocks(u: Tree, kids: seq<Tree>)
    ensures OwnBlocks(u.(kids := kids)) == OwnBlocks(u)
  {
  }

  lemma Bare(u: Tree)
    requires u.kids == []
    ensures Owned(u) == OwnBlocks(u) && Reach(u) == {u.node} && ReachAll(u.kids) == {} && OwnedAll(u.kids) == {}
  {
  }
}
