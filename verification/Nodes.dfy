/** The nodes of cJSON in memory. A Tree is the ghost picture of a node and what hangs below it: Holds
    ties it to the pointer fields, Owned are the blocks deleting the node frees. */
module Nodes {
  import opened Bytes
  import opened Values

  type Chars = s: bytes | NulFree(s) witness []

  /** A C string block; its bytes never change once it is in a node. */
  class CStr {
    const s: Chars

    constructor (s: Chars)
      ensures this.s == s
    {
      this.s := s;
    }
  }

  datatype Kind = KFalse | KTrue | KNull | KNumber | KString | KArray | KObject

  /** struct cJSON, with the reference flag of the type field on its own. */
  class Node {
    var next: Node?
    var prev: Node?
    var child: Node?
    var kind: Kind
    var isReference: bool
    var valuestring: CStr?
    var valueint: int
    var valuedouble: real
    var name: CStr?

    /** Memory set to zero. */
    constructor ()
      ensures Zeroed()
    {
      next, prev, child, valuestring, name := null, null, null, null, null;
      kind, isReference, valueint, valuedouble := KFalse, false, 0, 0.0;
    }

    ghost predicate Zeroed()
      reads this
    {
      next == null && prev == null && Blank()
    }

    /** Zeroed except for the links to siblings. */
    ghost predicate Blank()
      reads `child, `valuestring, `name, `kind, `isReference, `valueint, `valuedouble
    {
      && child == null && valuestring == null && name == null
      && kind == KFalse && !isReference && valueint == 0 && valuedouble == 0.0
    }
  }

  /** The allocator: the blocks handed out and not yet freed. */
  class Heap {
    ghost var live: set<object>

    constructor ()
      ensures live == {}
    {
      live := {};
    }

    method NewNode() returns (n: Node)
      modifies this
      ensures fresh(n) && live == old(live) + {n} && n.Zeroed()
    {
      n := new Node();
      live := live + {n};
    }

    method NewString(s: Chars) returns (c: CStr)
      modifies this
      ensures fresh(c) && live == old(live) + {c} && c.s == s
    {
      c := new CStr(s);
      live := live + {c};
    }

    method NewBytes(n: nat) returns (a: array<byte>)
      modifies this
      ensures fresh(a) && a.Length == n && live == old(live) + {a}
    {
      a := new byte[n];
      live := live + {a};
    }

    /** Frees a block; freeing what is not live would be a double free. */
    method Free(o: object)
      requires o in live
      modifies this
      ensures live == old(live) - {o}
    {
      live := live - {o};
    }
  }

  datatype Tree = Tree(
    node: Node,
    kind: Kind,
    borrowed: bool,
    name: CStr?,
    text: CStr?,
    whole: int,
    number: real,
    kids: seq<Tree>)

  // ---------- The nodes of a tree ----------

  ghost function Reach(t: Tree): set<Node> {
    {t.node} + ReachAll(t.kids)
  }

  ghost function ReachAll(ts: seq<Tree>): set<Node> {
    set i, n | 0 <= i < |ts| && n in Reach(ts[i]) :: n
  }

  /** The nodes strictly below the roots. */
  ghost function BelowAll(ts: seq<Tree>): set<Node> {
    set i, n | 0 <= i < |ts| && n in ReachAll(ts[i].kids) :: n
  }

  ghost function Roots(ts: seq<Tree>): (ns: seq<Node>)
    ensures |ns| == |ts|
    ensures forall i | 0 <= i < |ts| :: ns[i] == ts[i].node
  {
    seq(|ts|, i requires 0 <= i < |ts| => ts[i].node)
  }

  ghost function ElementSet(ks: seq<Node>): set<Node> {
    set i | 0 <= i < |ks| :: ks[i]
  }

  lemma ReachFacts(ts: seq<Tree>)
    ensures ElementSet(Roots(ts)) <= ReachAll(ts)
    ensures BelowAll(ts) <= ReachAll(ts)
  {
    forall i | 0 <= i < |ts| ensures ts[i].node in ReachAll(ts) && ReachAll(ts[i].kids) <= ReachAll(ts) {
      assert ts[i].node in Reach(ts[i]);
      forall n | n in ReachAll(ts[i].kids) ensures n in ReachAll(ts) {
        assert n in Reach(ts[i]);
      }
    }
  }

  // ---------- Links ----------

  ghost predicate NoRepeats(ks: seq<Node>) {
    forall i, j | 0 <= i < j < |ks| :: ks[i] != ks[j]
  }

  /** The child pointer and the sibling links of the parent's children spell out ks: the first has no
      predecessor, the last no successor, and next and prev are mutually inverse. */
  ghost predicate Siblings(parent: Node, ks: seq<Node>)
    reads parent`child, ElementSet(ks)`next, ElementSet(ks)`prev
  {
    && parent.child == (if ks == [] then null else ks[0])
    && NoRepeats(ks)
    && (forall i | 0 <= i < |ks| ::
          && ks[i].prev == (if i == 0 then null else ks[i - 1])
          && ks[i].next == (if i == |ks| - 1 then null else ks[i + 1]))
  }

  /** The child pointer leads to the first of ks, next from each to the one after it, and the last has no
      successor: all that a loop over a list looks at. */
  ghost predicate Leads(parent: Node, ks: seq<Node>)
    reads parent`child, ElementSet(ks)`next
  {
    && parent.child == (if ks == [] then null else ks[0])
    && forall i | 0 <= i < |ks| :: ks[i].next == (if i == |ks| - 1 then null else ks[i + 1])
  }

  lemma SiblingsLead(parent: Node, ks: seq<Node>)
    requires Siblings(parent, ks)
    ensures Leads(parent, ks)
  {
  }

  lemma LeadsAt(parent: Node, ks: seq<Node>, i: nat)
    requires Leads(parent, ks) && i < |ks|
    ensures ks[i].next == if i == |ks| - 1 then null else ks[i + 1]
  {
  }

  /** The fields of a node other than its links. */
  ghost predicate Fields(t: Tree)
    reads t.node`kind, t.node`isReference, t.node`name, t.node`valuestring, t.node`valueint, t.node`valuedouble
  {
    && t.node.kind == t.kind && t.node.isReference == t.borrowed && t.node.name == t.name
    && t.node.valuestring == t.text && t.node.valueint == t.whole && t.node.valuedouble == t.number
  }

  /** The memory that a node owns is as the tree says. A reference's children belong to another node and are not
      looked at. */
  ghost predicate Holds(t: Tree)
    reads Reach(t)`kind, Reach(t)`isReference, Reach(t)`name, Reach(t)`valuestring, Reach(t)`valueint,
      Reach(t)`valuedouble, Reach(t)`child, ReachAll(t.kids)`next, ReachAll(t.kids)`prev
    decreases t
  {
    && Fields(t)
    && (!t.borrowed ==>
          (ReachFacts(t.kids);
           Siblings(t.node, Roots(t.kids)) && HoldsAll(t.kids)))
  }

  ghost predicate HoldsAll(ts: seq<Tree>)
    reads ReachAll(ts)`kind, ReachAll(ts)`isReference, ReachAll(ts)`name, ReachAll(ts)`valuestring,
      ReachAll(ts)`valueint, ReachAll(ts)`valuedouble, ReachAll(ts)`child, BelowAll(ts)`next, BelowAll(ts)`prev
    decreases ts
  {
    forall i | 0 <= i < |ts| :: Holds(ts[i])
  }

  /** What is met on the way along child and next from a node is as the tree says, below references too. */
  ghost predicate Seen(t: Tree)
    reads Reach(t)`kind, Reach(t)`isReference, Reach(t)`name, Reach(t)`valuestring, Reach(t)`valueint,
      Reach(t)`valuedouble, Reach(t)`child, ReachAll(t.kids)`next
    decreases t
  {
    ReachFacts(t.kids);
    Fields(t) && Leads(t.node, Roots(t.kids)) && SeenAll(t.kids)
  }

  ghost predicate SeenAll(ts: seq<Tree>)
    reads ReachAll(ts)`kind, ReachAll(ts)`isReference, ReachAll(ts)`name, ReachAll(ts)`valuestring,
      ReachAll(ts)`valueint, ReachAll(ts)`valuedouble, ReachAll(ts)`child, BelowAll(ts)`next
    decreases ts
  {
    forall i | 0 <= i < |ts| :: Seen(ts[i])
  }

  // ---------- Ownership ----------

  /** The node, its name, and its string unless that is borrowed. */
  ghost function OwnBlocks(t: Tree): set<object> {
    {t.node}
    + (if t.name == null then {} else {t.name})
    + (if t.text == null || t.borrowed then {} else {t.text})
  }

  /** What is freed with the node: nothing that is reached through a reference. */
  ghost function Owned(t: Tree): set<object> {
    OwnBlocks(t) + (if t.borrowed then {} else OwnedAll(t.kids))
  }

  ghost function OwnedAll(ts: seq<Tree>): set<object> {
    set i, o | 0 <= i < |ts| && o in Owned(ts[i]) :: o
  }

  /** No block is owned twice. */
  ghost predicate Separate(t: Tree) {
    && (t.name != null && t.text != null && !t.borrowed ==> t.name != t.text)
    && (!t.borrowed ==> OwnBlocks(t) !! OwnedAll(t.kids) && SeparateAll(t.kids))
  }

  ghost predicate SeparateAll(ts: seq<Tree>) {
    && (forall i | 0 <= i < |ts| :: Separate(ts[i]))
    && (forall i, j | 0 <= i < j < |ts| :: Owned(ts[i]) !! Owned(ts[j]))
  }

  /** No references anywhere. */
  ghost predicate Plain(t: Tree) {
    !t.borrowed && forall i | 0 <= i < |t.kids| :: Plain(t.kids[i])
  }

  ghost predicate PlainAll(ts: seq<Tree>) {
    forall i | 0 <= i < |ts| :: Plain(ts[i])
  }

  // ---------- What is read ----------

  /** Every block that the tree shows, also through references. */
  ghost function Shown(t: Tree): set<object> {
    RootShown(t) + ShownAll(t.kids)
  }

  /** The node itself and its strings. */
  ghost function RootShown(t: Tree): set<object> {
    {t.node}
    + (if t.name == null then {} else {t.name})
    + (if t.text == null then {} else {t.text})
  }

  ghost function ShownAll(ts: seq<Tree>): set<object> {
    set i, o | 0 <= i < |ts| && o in Shown(ts[i]) :: o
  }

  lemma RootParts(t: Tree, live: set<object>)
    requires RootShown(t) <= live
    ensures t.node in live && (t.name != null ==> t.name in live) && (t.text != null ==> t.text in live)
  {
  }

  lemma ShownParts(t: Tree, live: set<object>)
    requires Shown(t) <= live
    ensures RootShown(t) <= live && t.node in live && (t.name != null ==> t.name in live)
      && (t.text != null ==> t.text in live)
  {
  }

  lemma ShownKid(t: Tree, i: nat, live: set<object>)
    requires Shown(t) <= live && i < |t.kids|
    ensures Shown(t.kids[i]) <= live && t.kids[i].node in live
    ensures t.kids[i].name != null ==> t.kids[i].name in live
  {
    forall o | o in Shown(t.kids[i]) ensures o in live {
      assert o in ShownAll(t.kids);
    }
    ShownParts(t.kids[i], live);
  }

  lemma ShownRoots(t: Tree, live: set<object>)
    requires Shown(t) <= live
    ensures forall n | n in Roots(t.kids) :: n in live
  {
    forall i | 0 <= i < |t.kids| ensures t.kids[i].node in live {
      ShownKid(t, i, live);
    }
  }

  /** What is shown through references only. */
  ghost function Borrowed(t: Tree): set<object> {
    if t.borrowed then (if t.text == null then {} else {t.text}) + ShownAll(t.kids) else BorrowedAll(t.kids)
  }

  ghost function BorrowedAll(ts: seq<Tree>): set<object> {
    set i, o | 0 <= i < |ts| && o in Borrowed(ts[i]) :: o
  }

  /** A tree shows what it owns and what it borrows. */
  lemma {:induction false} ShownSplit(t: Tree)
    ensures Shown(t) == Owned(t) + Borrowed(t)
  {
    if !t.borrowed {
      forall i | 0 <= i < |t.kids| ensures Shown(t.kids[i]) == Owned(t.kids[i]) + Borrowed(t.kids[i]) {
        ShownSplit(t.kids[i]);
      }
      KidsSplit(t.kids);
    }
  }

  lemma KidsSplit(ts: seq<Tree>)
    requires forall i | 0 <= i < |ts| :: Shown(ts[i]) == Owned(ts[i]) + Borrowed(ts[i])
    ensures ShownAll(ts) == OwnedAll(ts) + BorrowedAll(ts)
  {
    hide Shown, Owned, Borrowed;
    forall o | o in ShownAll(ts) ensures o in OwnedAll(ts) + BorrowedAll(ts) {
      var i :| 0 <= i < |ts| && o in Shown(ts[i]);
      assert o in Owned(ts[i]) || o in Borrowed(ts[i]);
    }
    forall o | o in OwnedAll(ts) + BorrowedAll(ts) ensures o in ShownAll(ts) {
      if o in OwnedAll(ts) {
        var i :| 0 <= i < |ts| && o in Owned(ts[i]);
        assert o in Shown(ts[i]);
      } else {
        var i :| 0 <= i < |ts| && o in Borrowed(ts[i]);
        assert o in Shown(ts[i]);
      }
    }
  }

  /** A tree without references shows what it owns. */
  lemma {:induction false} PlainShown(t: Tree)
    requires Plain(t)
    ensures Borrowed(t) == {} && Shown(t) == Owned(t)
  {
    forall i | 0 <= i < |t.kids| ensures Borrowed(t.kids[i]) == {} {
      PlainShown(t.kids[i]);
    }
    assert BorrowedAll(t.kids) == {};
    ShownSplit(t);
  }

  // ---------- Meaning ----------

  /** Every string node has its string, every child of an object its name, and the two fields of a number agree. */
  ghost predicate Typed(t: Tree) {
    match t.kind
    case KNumber => t.whole == Truncated(t.number)
    case KString => t.text != null
    case KArray => forall i | 0 <= i < |t.kids| :: Typed(t.kids[i])
    case KObject => forall i | 0 <= i < |t.kids| :: t.kids[i].name != null && Typed(t.kids[i])
    case _ => true
  }

  ghost function Value(t: Tree): Json
    requires Typed(t)
  {
    match t.kind
    case KFalse => False
    case KTrue => True
    case KNull => Null
    case KNumber => Number(t.number)
    case KString => Str(t.text.s)
    case KArray => Array(seq(|t.kids|, i requires 0 <= i < |t.kids| => Value(t.kids[i])))
    case KObject =>
      Object(seq(|t.kids|, i requires 0 <= i < |t.kids| => Member(t.kids[i].name.s, Value(t.kids[i]))))
  }

  ghost predicate TypedItems(ts: seq<Tree>) {
    forall i | 0 <= i < |ts| :: Typed(ts[i])
  }

  ghost predicate TypedMembers(ts: seq<Tree>) {
    forall i | 0 <= i < |ts| :: ts[i].name != null && Typed(ts[i])
  }

  ghost function ItemValues(ts: seq<Tree>): seq<Json>
    requires TypedItems(ts)
  {
    seq(|ts|, i requires 0 <= i < |ts| => Value(ts[i]))
  }

  ghost function MemberValues(ts: seq<Tree>): seq<Member>
    requires TypedMembers(ts)
  {
    seq(|ts|, i requires 0 <= i < |ts| => Member(ts[i].name.s, Value(ts[i])))
  }

  lemma ArrayValue(t: Tree)
    requires t.kind == KArray && TypedItems(t.kids)
    ensures Typed(t) && Value(t) == Array(ItemValues(t.kids))
  {
    assert ItemValues(t.kids) == seq(|t.kids|, i requires 0 <= i < |t.kids| => Value(t.kids[i]));
  }

  lemma ObjectValue(t: Tree)
    requires t.kind == KObject && TypedMembers(t.kids)
    ensures Typed(t) && Value(t) == Object(MemberValues(t.kids))
  {
    assert MemberValues(t.kids)
        == seq(|t.kids|, i requires 0 <= i < |t.kids| => Member(t.kids[i].name.s, Value(t.kids[i])));
  }

  // ---------- Walking over children ----------

  lemma ReachKids(t: Tree)
    ensures t.node in Reach(t) && forall n | n in ReachAll(t.kids) :: n in Reach(t)
  {
  }

  lemma FirstKid(t: Tree)
    requires Seen(t)
    ensures t.node.child == if t.kids == [] then null else t.kids[0].node
  {
  }

  lemma NextKid(t: Tree, i: nat)
    requires Seen(t) && i < |t.kids|
    ensures Seen(t.kids[i])
    ensures t.kids[i].node.next == if i == |t.kids| - 1 then null else t.kids[i + 1].node
  {
    LeadsAt(t.node, Roots(t.kids), i);
  }

  lemma KidLinks(t: Tree)
    requires Seen(t)
    ensures Leads(t.node, Roots(t.kids))
  {
  }

  // ---------- Growing a list of children ----------

  lemma Snoc(ts: seq<Tree>, t: Tree)
    ensures ReachAll(ts + [t]) == ReachAll(ts) + Reach(t)
    ensures BelowAll(ts + [t]) == BelowAll(ts) + ReachAll(t.kids)
    ensures OwnedAll(ts + [t]) == OwnedAll(ts) + Owned(t)
    ensures Roots(ts + [t]) == Roots(ts) + [t.node]
  {
    var us := ts + [t];
    assert us[|ts|] == t;
    forall i | 0 <= i < |ts| ensures us[i] == ts[i] {
    }
    forall n | n in ReachAll(ts) + Reach(t) ensures n in ReachAll(us) {
      if n in Reach(t) {
        assert n in Reach(us[|ts|]);
      } else {
        var i :| 0 <= i < |ts| && n in Reach(ts[i]);
        assert n in Reach(us[i]);
      }
    }
    forall n | n in BelowAll(ts) + ReachAll(t.kids) ensures n in BelowAll(us) {
      if n in ReachAll(t.kids) {
        assert n in ReachAll(us[|ts|].kids);
      } else {
        var i :| 0 <= i < |ts| && n in ReachAll(ts[i].kids);
        assert n in ReachAll(us[i].kids);
      }
    }
    forall o | o in OwnedAll(ts) + Owned(t) ensures o in OwnedAll(us) {
      if o in Owned(t) {
        assert o in Owned(us[|ts|]);
      } else {
        var i :| 0 <= i < |ts| && o in Owned(ts[i]);
        assert o in Owned(us[i]);
      }
    }
  }

  lemma SnocSeparate(ts: seq<Tree>, t: Tree)
    requires SeparateAll(ts) && Separate(t) && OwnedAll(ts) !! Owned(t)
    ensures SeparateAll(ts + [t])
  {
    var us := ts + [t];
    forall i, j | 0 <= i < j < |us| ensures Owned(us[i]) !! Owned(us[j]) {
      if j == |ts| {
        forall o | o in Owned(ts[i]) ensures o in OwnedAll(ts) {
        }
      }
    }
  }

  lemma NoValues()
    ensures TypedItems([]) && ItemValues([]) == []
    ensures TypedMembers([]) && MemberValues([]) == []
  {
  }

  lemma SnocValues(ts: seq<Tree>, t: Tree)
    requires Typed(t)
    ensures TypedItems(ts) ==> TypedItems(ts + [t]) && ItemValues(ts + [t]) == ItemValues(ts) + [Value(t)]
    ensures TypedMembers(ts) && t.name != null ==>
      TypedMembers(ts + [t]) && MemberValues(ts + [t]) == MemberValues(ts) + [Member(t.name.s, Value(t))]
  {
  }

  /** Without references, the nodes reached are among the blocks owned. */
  lemma {:induction false} PlainReach(t: Tree)
    requires Plain(t)
    ensures forall n | n in Reach(t) :: n in Owned(t)
    ensures forall n | n in ReachAll(t.kids) :: n in OwnedAll(t.kids)
  {
    forall n | n in ReachAll(t.kids) ensures n in OwnedAll(t.kids) {
      var i :| 0 <= i < |t.kids| && n in Reach(t.kids[i]);
      PlainReach(t.kids[i]);
      assert n in Owned(t.kids[i]);
    }
  }

  /** The roots of separate trees do not occur below them. */
  lemma RootsApart(ts: seq<Tree>)
    requires SeparateAll(ts) && PlainAll(ts)
    ensures NoRepeats(Roots(ts))
    ensures forall i | 0 <= i < |ts| :: ts[i].node !in BelowAll(ts)
  {
    forall i, j | 0 <= i < |ts| && 0 <= j < |ts|
      ensures ts[i].node !in ReachAll(ts[j].kids) && (i < j ==> ts[i].node != ts[j].node)
    {
      PlainReach(ts[j]);
      assert ts[i].node in Owned(ts[i]) && ts[j].node in Owned(ts[j]);
    }
  }

  lemma {:induction false} ReachAllocated(t: Tree)
    ensures forall n | n in Reach(t) :: allocated(n)
  {
    forall n | n in Reach(t) ensures allocated(n) {
      if n != t.node {
        assert n in ReachAll(t.kids);
        var i :| 0 <= i < |t.kids| && n in Reach(t.kids[i]);
        ReachAllocated(t.kids[i]);
      }
    }
  }

  lemma ReachAllAllocated(ts: seq<Tree>)
    ensures forall n | n in ReachAll(ts) :: allocated(n)
  {
    forall n | n in ReachAll(ts) ensures allocated(n) {
      var i :| 0 <= i < |ts| && n in Reach(ts[i]);
      ReachAllocated(ts[i]);
    }
  }

  lemma ElementsAllocated(ks: seq<Node>)
    ensures forall n | n in ElementSet(ks) :: allocated(n)
  {
  }

  lemma {:induction false} OwnedAllocated(t: Tree)
    ensures forall o | o in Owned(t) :: allocated(o)
  {
    forall o | o in Owned(t) ensures allocated(o) {
      if o !in OwnBlocks(t) {
        assert o in OwnedAll(t.kids);
        var i :| 0 <= i < |t.kids| && o in Owned(t.kids[i]);
        OwnedAllocated(t.kids[i]);
      }
    }
  }

  lemma OwnedAllAllocated(ts: seq<Tree>)
    ensures forall o | o in OwnedAll(ts) :: allocated(o)
  {
    forall o | o in OwnedAll(ts) ensures allocated(o) {
      var i :| 0 <= i < |ts| && o in Owned(ts[i]);
      OwnedAllocated(ts[i]);
    }
  }

  // ---------- Trees under construction ----------

  /** The blocks that hang on a node: its string and all its children own. */
  ghost function Inner(t: Tree): set<object> {
    (if t.text == null then {} else {t.text}) + OwnedAll(t.kids)
  }

  ghost predicate WellBuilt(t: Tree)
    reads Reach(t)`kind, Reach(t)`isReference, Reach(t)`name, Reach(t)`valuestring, Reach(t)`valueint,
      Reach(t)`valuedouble, Reach(t)`child, ReachAll(t.kids)`next, ReachAll(t.kids)`prev
  {
    Holds(t) && Plain(t) && Separate(t)
  }

  /** The finished children of a node whose list is still growing. */
  ghost predicate Growing(parent: Node, kids: seq<Tree>)
    reads ReachAll(kids)`kind, ReachAll(kids)`isReference, ReachAll(kids)`name, ReachAll(kids)`valuestring,
      ReachAll(kids)`valueint, ReachAll(kids)`valuedouble, ReachAll(kids)`child, BelowAll(kids)`next,
        BelowAll(kids)`prev
  {
    HoldsAll(kids) && PlainAll(kids) && SeparateAll(kids) && parent !in ReachAll(kids)
  }

  /** Links a node behind the last child; the first becomes the parent's child. */
  method LinkLast(parent: Node, last: Node?, n: Node, ghost ks: seq<Node>)
    requires Siblings(parent, ks) && n !in ks && n.next == null && n.prev == null
    requires last == if ks == [] then null else ks[|ks| - 1]
    modifies parent`child, (if last == null then {} else {last})`next, n`prev
    ensures Siblings(parent, ks + [n])
  {
    if last == null {
      parent.child := n;
    } else {
      last.next := n;
      n.prev := last;
    }
    forall i | 0 <= i < |ks|
      ensures ks[i].prev == (if i == 0 then null else ks[i - 1])
      ensures ks[i].next == (if i == |ks| - 1 then n else ks[i + 1])
    {
      assert old(ks[i].prev) == (if i == 0 then null else ks[i - 1]);
      assert old(ks[i].next) == (if i == |ks| - 1 then null else ks[i + 1]);
    }
    LinkedLast(parent, ks, n);
  }

  /** A new child node linked behind the last one. */
  method AddChild(heap: Heap, parent: Node, last: Node?, ghost kids: seq<Tree>) returns (child: Node)
    requires Siblings(parent, Roots(kids)) && Growing(parent, kids)
    requires last == if kids == [] then null else kids[|kids| - 1].node
    modifies heap, parent`child, (if last == null then {} else {last})`next
    ensures fresh(child) && heap.live == old(heap.live) + {child} && child.Blank()
    ensures Siblings(parent, Roots(kids) + [child]) && Growing(parent, kids)
  {
    hide Holds, HoldsAll, PlainAll, SeparateAll, ReachAll, BelowAll, Siblings;
    RootsApart(kids);
    ReachFacts(kids);
    ReachAllAllocated(kids);
    child := heap.NewNode();
    LinkLast(parent, last, child, Roots(kids));
  }

  lemma SiblingsAt(parent: Node, ks: seq<Node>, i: nat)
    requires Siblings(parent, ks) && i < |ks|
    ensures ks[i].prev == (if i == 0 then null else ks[i - 1])
    ensures ks[i].next == (if i == |ks| - 1 then null else ks[i + 1])
  {
  }

  lemma LinkedLast(parent: Node, ks: seq<Node>, n: Node)
    requires NoRepeats(ks) && n !in ks && parent.child == (ks + [n])[0]
    requires forall i | 0 <= i < |ks| :: ks[i].prev == (if i == 0 then null else ks[i - 1])
    requires forall i | 0 <= i < |ks| :: ks[i].next == (if i == |ks| - 1 then n else ks[i + 1])
    requires n.next == null && n.prev == if ks == [] then null else ks[|ks| - 1]
    ensures Siblings(parent, ks + [n])
  {
    var all := ks + [n];
    forall i | 0 <= i < |all|
      ensures all[i].prev == (if i == 0 then null else all[i - 1])
      ensures all[i].next == (if i == |all| - 1 then null else all[i + 1])
    {
      if i < |ks| {
        assert all[i] == ks[i];
        assert ks[i].prev == (if i == 0 then null else ks[i - 1]);
        assert ks[i].next == (if i == |ks| - 1 then n else ks[i + 1]);
      }
    }
    assert NoRepeats(all);
    assert parent.child == all[0];
    assert forall i | 0 <= i < |all| :: all[i].prev == (if i == 0 then null else all[i - 1]);
    assert forall i | 0 <= i < |all| :: all[i].next == (if i == |all| - 1 then null else all[i + 1]);
    assert Siblings(parent, all);
  }

  /** A finished child joins the list. */
  lemma GrowOne(parent: Node, kids: seq<Tree>, t: Tree)
    requires Growing(parent, kids) && WellBuilt(t) && parent !in Reach(t) && OwnedAll(kids) !! Owned(t)
    ensures Growing(parent, kids + [t])
  {
    hide Holds, Plain, Separate, SeparateAll, ReachAll, Owned;
    Snoc(kids, t);
    SnocSeparate(kids, t);
    forall i | 0 <= i < |kids + [t]| ensures Holds((kids + [t])[i]) && Plain((kids + [t])[i]) {
      if i < |kids| {
        assert (kids + [t])[i] == kids[i];
      }
    }
  }

  ghost function Leaf(n: Node): Tree
    reads n
  {
    Tree(n, n.kind, n.isReference, n.name, n.valuestring, n.valueint, n.valuedouble, [])
  }
}
