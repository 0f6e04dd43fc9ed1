/** Trees that are built from the root down, child by child. */
module Building {
  import opened Values
  import opened Nodes
  import opened Deleting

  /** The root is as the tree says, its list of children aside, and is no reference. */
  ghost predicate Labelled(t: Tree)
    reads t.node`kind, t.node`isReference, t.node`name, t.node`valuestring, t.node`valueint, t.node`valuedouble
  {
    && t.node.kind == t.kind && !t.node.isReference && !t.borrowed
    && t.node.name == t.name && t.node.valuestring == t.text && (t.name != null ==> t.name != t.text)
    && t.node.valueint == t.whole && t.node.valuedouble == t.number
  }

  ghost function NameBlock(t: Tree): set<object> {
    if t.name == null then {} else {t.name}
  }

  /** A node with its finished list of children is a well-built tree. */
  lemma Assembled(t: Tree)
    requires Labelled(t) && Siblings(t.node, Roots(t.kids)) && Growing(t.node, t.kids)
    requires forall o | o in OwnBlocks(t) :: o !in OwnedAll(t.kids)
    ensures WellBuilt(t)
  {
  }

  /** A well-built tree may take further children. */
  lemma Reopened(t: Tree)
    requires WellBuilt(t)
    ensures Labelled(t) && Siblings(t.node, Roots(t.kids)) && Growing(t.node, t.kids)
    ensures forall o | o in OwnBlocks(t) :: o !in OwnedAll(t.kids) && allocated(o)
  {
    PlainReach(t);
  }

  /** The new last child has its tree. */
  lemma GrowChild(item: Node, kids: seq<Tree>, t: Tree, child: Node)
    requires Growing(item, kids) && WellBuilt(t) && t.node == child && item != child
    requires item !in ReachAll(t.kids) && OwnedAll(kids) !! Inner(t) + {child} + NameBlock(t)
    requires child !in Inner(t) && NameBlock(t) !! Inner(t)
    requires Siblings(item, Roots(kids) + [child])
    ensures Siblings(item, Roots(kids + [t])) && Growing(item, kids + [t])
    ensures Reach(t) == {child} + ReachAll(t.kids) && Owned(t) == {child} + NameBlock(t) + Inner(t)
  {
    assert Owned(t) == {child} + NameBlock(t) + Inner(t);
    Snoc(kids, t);
    GrowOne(item, kids, t);
  }

  /** A node without children. */
  lemma Childless(t: Tree)
    requires t.kids == [] && t.node.child == null && Labelled(t)
    ensures WellBuilt(t) && Inner(t) == (if t.text == null then {} else {t.text}) && ReachAll(t.kids) == {}
    ensures TypedItems(t.kids) && ItemValues(t.kids) == []
    ensures TypedMembers(t.kids) && MemberValues(t.kids) == []
  {
  }

  /** A tree takes a new last child. */
  lemma Appended(t: Tree, k: Tree, t': Tree)
    requires t' == t.(kids := t.kids + [k]) && Labelled(t)
    requires Siblings(t.node, Roots(t.kids + [k])) && Growing(t.node, t.kids + [k])
    requires forall o | o in OwnBlocks(t) :: o !in OwnedAll(t.kids) && o !in Owned(k)
    ensures WellBuilt(t') && Inner(t') == Inner(t) + Owned(k)
    ensures ReachAll(t'.kids) == ReachAll(t.kids) + Reach(k)
    ensures Typed(k) && TypedItems(t.kids) ==>
      TypedItems(t'.kids) && ItemValues(t'.kids) == ItemValues(t.kids) + [Value(k)]
    ensures Typed(k) && TypedMembers(t.kids) && k.name != null ==>
      TypedMembers(t'.kids) && MemberValues(t'.kids) == MemberValues(t.kids) + [Member(k.name.s, Value(k))]
  {
    hide Holds, Plain, Separate, Value, Typed, TypedItems, TypedMembers, ItemValues, MemberValues, Inner, WellBuilt,
      Growing, Siblings, SeparateAll, OwnedAll, Owned, ReachAll, Reach, OwnBlocks;
    AppendedBlocks(t, k, t');
    AppendedValues(t, k);
    Assembled(t');
  }

  lemma AppendedBlocks(t: Tree, k: Tree, t': Tree)
    requires t' == t.(kids := t.kids + [k])
    ensures Inner(t') == Inner(t) + Owned(k) && OwnBlocks(t') == OwnBlocks(t)
    ensures OwnedAll(t'.kids) == OwnedAll(t.kids) + Owned(k) && ReachAll(t'.kids) == ReachAll(t.kids) + Reach(k)
  {
    Snoc(t.kids, k);
    hide Owned, OwnedAll, Reach, ReachAll;
  }

  lemma AppendedValues(t: Tree, k: Tree)
    ensures Typed(k) && TypedItems(t.kids) ==>
      TypedItems(t.kids + [k]) && ItemValues(t.kids + [k]) == ItemValues(t.kids) + [Value(k)]
    ensures Typed(k) && TypedMembers(t.kids) && k.name != null ==>
      && TypedMembers(t.kids + [k])
      && MemberValues(t.kids + [k]) == MemberValues(t.kids) + [Member(k.name.s, Value(k))]
  {
    if Typed(k) {
      SnocValues(t.kids, k);
    }
  }

  /** A well-built tree at a fresh root. */
  lemma Rooted(t: Tree)
    requires WellBuilt(t) && t.name == null && t.node.next == null
    ensures Owned(t) == {t.node} + Inner(t) && t.node !in Inner(t)
    ensures t.node == First([t]) && Chained([t]) && HoldsAll([t]) && SeparateAll([t])
    ensures OwnedAll([t]) == Owned(t)
  {
    Alone(t);
  }
}
