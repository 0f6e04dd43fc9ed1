/** Pictures of what can be seen from a node along child and next, below references too: there is at most one, it
    shows what the node owns, and there is one exactly when every way along the pointers ends. */
module Pictures {
  import opened Nodes
  import opened Lists
  import opened Forests

  lemma {:induction false} SameList(parent: Node, ks: seq<Node>, ls: seq<Node>)
    requires Leads(parent, ks) && Leads(parent, ls)
    ensures ks == ls
  {
    if |ks| <= |ls| {
      SamePrefix(parent, ks, ls, |ks|);
    } else {
      SamePrefix(parent, ls, ks, |ls|);
    }
  }

  lemma {:induction false} SamePrefix(parent: Node, ks: seq<Node>, ls: seq<Node>, n: nat)
    requires Leads(parent, ks) && Leads(parent, ls) && n <= |ks| <= |ls|
    ensures ks[..n] == ls[..n] && (n == |ks| ==> |ks| == |ls|)
  {
    if n > 0 {
      SamePrefix(parent, ks, ls, n - 1);
      if n > 1 {
        assert ks[..n - 1][n - 2] == ls[..n - 1][n - 2];
        LeadsAt(parent, ks, n - 2);
        LeadsAt(parent, ls, n - 2);
      }
      LeadsAt(parent, ks, n - 1);
      LeadsAt(parent, ls, n - 1);
    }
  }

  /** A node has at most one picture. */
  lemma {:induction false} OnePicture(t: Tree, u: Tree)
    requires Seen(t) && Seen(u) && t.node == u.node
    ensures t == u
  {
    SameList(t.node, Roots(t.kids), Roots(u.kids));
    forall i | 0 <= i < |t.kids| ensures t.kids[i] == u.kids[i] {
      assert Roots(t.kids)[i] == Roots(u.kids)[i];
      OnePicture(t.kids[i], u.kids[i]);
    }
    assert t.kids == u.kids;
  }

  /** Without what lies behind its references the picture shows what the node owns. */
  lemma {:induction false} CutSeen(k: Tree, t: Tree)
    requires Holds(k) && Shallow(k) && Seen(t) && t.node == k.node
    ensures k == Cut(t)
  {
    if !k.borrowed {
      SiblingsLead(k.node, Roots(k.kids));
      SameList(t.node, Roots(t.kids), Roots(k.kids));
      forall i | 0 <= i < |t.kids| ensures k.kids[i] == Cut(t.kids[i]) {
        assert Roots(t.kids)[i] == Roots(k.kids)[i];
        CutSeen(k.kids[i], t.kids[i]);
      }
      assert k.kids == Cut(t).kids;
    }
  }

  /** Without references all that is owned is seen. */
  lemma {:induction false} PlainSeen(t: Tree)
    requires Holds(t) && Plain(t)
    ensures Seen(t)
  {
    SiblingsLead(t.node, Roots(t.kids));
    forall i | 0 <= i < |t.kids| ensures Seen(t.kids[i]) {
      PlainSeen(t.kids[i]);
    }
  }

  lemma SeenFields(t: Tree)
    requires Seen(t)
    ensures Fields(t)
  {
  }

  /** What a reference shows: the item's contents under a node of its own. */
  ghost function ReferenceTo(s: Tree, ref: Node): Tree {
    s.(node := ref, borrowed := true, name := null)
  }

  lemma ReferenceSeen(ref: Node, s: Tree)
    requires Seen(s) && ref.kind == s.kind && ref.isReference && ref.name == null && ref.valuestring == s.text
    requires ref.valueint == s.whole && ref.valuedouble == s.number && ref.child == s.node.child
    ensures Seen(ReferenceTo(s, ref))
  {
    var r := ReferenceTo(s, ref);
    assert r.kids == s.kids;
    hide Roots;
  }

  /** A reference is as readable as its original. */
  lemma ReferenceShown(ref: Node, s: Tree, live: set<object>)
    requires s.node in live && ref in live && (s.name != null ==> s.name in live)
    ensures Shown(ReferenceTo(s, ref)) <= live <==> Shown(s) <= live
  {
    assert ReferenceTo(s, ref).kids == s.kids;
    hide ShownAll;
  }

  // ---------- Where there is a picture ----------

  /** Every way along child and next from n comes to an end within d steps. */
  ghost predicate Ends(n: Node?, d: nat)
    reads *
  {
    n == null || (d > 0 && Ends(n.child, d - 1) && Ends(n.next, d - 1))
  }

  lemma {:induction false} EndsLater(n: Node?, d: nat, e: nat)
    requires Ends(n, d) && d <= e
    ensures Ends(n, e)
  {
    if n != null {
      EndsLater(n.child, d - 1, e - 1);
      EndsLater(n.next, d - 1, e - 1);
    }
  }

  ghost predicate LeadsFrom(first: Node?, ks: seq<Node>)
    reads ElementSet(ks)`next
  {
    && first == (if ks == [] then null else ks[0])
    && forall i | 0 <= i < |ks| :: ks[i].next == (if i == |ks| - 1 then null else ks[i + 1])
  }

  lemma FromAt(first: Node?, ks: seq<Node>, i: nat)
    requires LeadsFrom(first, ks) && i < |ks|
    ensures ks[i].next == if i == |ks| - 1 then null else ks[i + 1]
  {
  }

  lemma LeadsOn(n: Node, ks: seq<Node>)
    requires LeadsFrom(n.next, ks)
    ensures LeadsFrom(n, [n] + ks)
  {
    var ls := [n] + ks;
    forall i | 0 <= i < |ls| ensures ls[i].next == (if i == |ls| - 1 then null else ls[i + 1]) {
      if i == 0 {
        assert ks == [] || ls[1] == ks[0];
      } else {
        FromAt(n.next, ks, i - 1);
      }
    }
    assert forall i | 0 <= i < |ls| :: ls[i].next == (if i == |ls| - 1 then null else ls[i + 1]);
    assert LeadsFrom(n, ls);
  }

  lemma LeadsHere(n: Node, ks: seq<Node>)
    requires LeadsFrom(n.child, ks)
    ensures Leads(n, ks)
  {
  }

  lemma {:induction false} Drawn(n: Node, d: nat) returns (t: Tree)
    requires Ends(n.child, d)
    ensures t.node == n && Seen(t)
    decreases d, 1
  {
    var kids := DrawnList(n.child, d);
    LeadsHere(n, Roots(kids));
    t := Tree(n, n.kind, n.isReference, n.name, n.valuestring, n.valueint, n.valuedouble, kids);
    assert t.kids == kids;
  }

  lemma {:induction false} DrawnList(n: Node?, d: nat) returns (ts: seq<Tree>)
    requires Ends(n, d)
    ensures LeadsFrom(n, Roots(ts)) && SeenAll(ts)
    decreases d, 0
  {
    if n == null {
      return [];
    }
    var t := Drawn(n, d - 1);
    var rest := DrawnList(n.next, d - 1);
    ts := [t] + rest;
    LeadsOn(n, Roots(rest));
    assert Roots(ts) == [n] + Roots(rest);
  }

  lemma {:induction false} DepthFrom(t: Tree, i: nat) returns (d: nat)
    requires Seen(t) && i <= |t.kids|
    ensures Ends(if i < |t.kids| then t.kids[i].node else null, d)
    decreases t, |t.kids| - i
  {
    if i == |t.kids| {
      return 0;
    }
    LeadsAt(t.node, Roots(t.kids), i);
    var a := DepthFrom(t.kids[i], 0);
    var b := DepthFrom(t, i + 1);
    var k := t.kids[i].node;
    d := a + b + 1;
    EndsLater(k.child, a, a + b);
    EndsLater(k.next, b, a + b);
  }

  /** Reading the node with all that is below it comes to an end. */
  ghost predicate Finite(n: Node)
    reads *
  {
    exists d: nat :: Ends(n.child, d)
  }

  lemma EndsFinite(n: Node, d: nat)
    requires Ends(n.child, d)
    ensures Finite(n)
  {
  }

  lemma SeenFinite(t: Tree)
    requires Seen(t)
    ensures Finite(t.node)
  {
    FirstKid(t);
    var d := DepthFrom(t, 0);
    assert Ends(t.node.child, d);
  }

  lemma FiniteSeen(n: Node) returns (t: Tree)
    requires Finite(n)
    ensures t.node == n && Seen(t)
  {
    var d: nat :| Ends(n.child, d);
    t := Drawn(n, d);
  }

  /** A node has a picture if and only if there is a bound on the ways along child and next below it, that is, when
      reading it comes to an end. */
  lemma SeenExactly(n: Node)
    ensures (exists t: Tree :: t.node == n && Seen(t)) <==> Finite(n)
  {
    if t: Tree :| t.node == n && Seen(t) {
      SeenFinite(t);
    }
    if Finite(n) {
      var t := FiniteSeen(n);
      assert t.node == n && Seen(t);
    }
  }

  /** Where pointers only skip nodes, what could be read can be read still. */
  twostate lemma {:induction false} EndsSkipping(n: Node?, new d: nat)
    requires forall m: Node | old(allocated(m)) :: Skips(m)
    requires old(Ends(n, d))
    ensures Ends(n, d)
    decreases d
  {
    if n != null {
      assert Skips(n);
      EndsSkipping(old(n.child), d - 1);
      EndsSkipping(old(n.next), d - 1);
      if old(n.child) != null {
        EndsSkipping(old(n.child.next), d - 2);
        EndsLater(old(n.child.next), d - 2, d - 1);
      }
      if old(n.next) != null {
        EndsSkipping(old(n.next.next), d - 2);
        EndsLater(old(n.next.next), d - 2, d - 1);
      }
    }
  }

  twostate lemma FiniteSkipping(n: Node)
    requires (forall m: Node | old(allocated(m)) :: Skips(m)) && old(Finite(n))
    ensures Finite(n)
  {
    var d: nat :| old(Ends(n.child, d));
    EndsSkipping(old(n.child), d);
    if old(n.child) != null {
      EndsSkipping(old(n.child.next), d - 1);
      EndsLater(old(n.child.next), d - 1, d);
    }
    assert Skips(n) && Ends(n.child, d);
  }

  // ---------- Linking into a list ----------

  twostate lemma SeenParts(t: Tree)
    requires old(Seen(t))
    ensures old(Leads(t.node, Roots(t.kids))) && forall i | 0 <= i < |t.kids| :: old(Seen(t.kids[i]))
  {
  }

  ghost function KidAt(t: Tree, i: nat): Node? {
    if i < |t.kids| then t.kids[i].node else null
  }

  twostate lemma LedOn(t: Tree, new i: nat)
    requires old(Leads(t.node, Roots(t.kids)))
    ensures old(t.node.child) == KidAt(t, 0)
    ensures i < |t.kids| ==> old(t.kids[i].node.next) == KidAt(t, i + 1)
  {
    if i < |t.kids| {
      WasNext(t.node, Roots(t.kids), i);
    }
  }

  twostate lemma WasNext(new parent: Node, ks: seq<Node>, new i: nat)
    requires old(allocated(parent)) && old(Leads(parent, ks)) && i < |ks|
    ensures old(ks[i].next) == if i == |ks| - 1 then null else ks[i + 1]
  {
  }

  /** Among the nodes one pointer has changed: it led to c and leads to n now. When `first` it is a child pointer, else
      the next pointer of an element. */
  twostate predicate Linked(new nodes: set<Node>, new inner: set<Node>, new link: Node, first: bool, new n: Node,
    new c: Node?)
    reads nodes, inner
  {
    && (forall m | m in nodes && old(allocated(m)) ::
          if first && m == link then old(m.child) == c && m.child == n else m.child == old(m.child))
    && (forall m | m in inner && old(allocated(m)) ::
          if !first && m == link then old(m.next) == c && m.next == n else m.next == old(m.next))
  }

  /** Whether the picture looks at the pointer. */
  ghost predicate Meets(t: Tree, link: Node, first: bool) {
    link in ReachAll(t.kids) || (first && t.node == link)
  }

  lemma KidIn(t: Tree, i: nat)
    requires i < |t.kids|
    ensures t.kids[i].node in ReachAll(t.kids) && t.kids[i].node in Reach(t) && Reach(t.kids[i]) <= ReachAll(t.kids)
    ensures ReachAll(t.kids[i].kids) <= Reach(t.kids[i]) && ReachAll(t.kids) <= Reach(t)
  {
    OwnedMember(t.kids, i);
    KidsReach(t.kids[i]);
    KidsReach(t);
  }

  /** A picture that does not look at the pointer stays as it is. */
  twostate lemma UnmetSeen(new nodes: set<Node>, new inner: set<Node>, new link: Node, new first: bool, new n: Node,
    new c: Node?, t: Tree)
    requires Linked(nodes, inner, link, first, n, c) && Reach(t) <= nodes && ReachAll(t.kids) <= inner
    requires old(Seen(t)) && !Meets(t, link, first)
    requires forall m | m in Reach(t) && old(allocated(m)) ::
      && m.kind == old(m.kind) && m.isReference == old(m.isReference) && m.name == old(m.name)
      && m.valuestring == old(m.valuestring) && m.valueint == old(m.valueint) && m.valuedouble == old(m.valuedouble)
    ensures Seen(t)
  {
    hide Seen, ReachAll, Reach, Linked;
    ReachBefore(t);
    KidsReach(t);
    UnmetPointers(nodes, inner, link, first, n, c, t);
  }

  twostate lemma UnmetPointers(new nodes: set<Node>, new inner: set<Node>, new link: Node, new first: bool, new n: Node,
    new c: Node?, t: Tree)
    requires Linked(nodes, inner, link, first, n, c) && Reach(t) <= nodes && ReachAll(t.kids) <= inner
    requires !Meets(t, link, first)
    ensures forall m | m in Reach(t) :: old(allocated(m)) && m.child == old(m.child)
    ensures forall m | m in ReachAll(t.kids) :: old(allocated(m)) && m.next == old(m.next)
  {
    hide ReachAll, Reach;
    ReachBefore(t);
    KidsReach(t);
    NodeOrBelow(t);
  }

  lemma NodeOrBelow(t: Tree)
    ensures Reach(t) == {t.node} + ReachAll(t.kids)
  {
  }

  /** How far the ways go when n's contents end after e steps. */
  twostate lemma {:induction false} DepthAfter(new nodes: set<Node>, new inner: set<Node>, new link: Node,
    new first: bool, new n: Node, new c: Node?, new e: nat, t: Tree, new i: nat) returns (d: nat)
    requires Linked(nodes, inner, link, first, n, c) && Reach(t) <= nodes && ReachAll(t.kids) <= inner
    requires old(Seen(t)) && i <= |t.kids| && (link in ReachAll(t.kids) ==> Ends(n.child, e) && n.next == c)
    ensures Ends(KidAt(t, i), d)
    decreases t, |t.kids| - i
  {
    hide Seen, Leads, Reach, ReachAll, Linked, Ends;
    NoWay();
    if i == |t.kids| {
      return 0;
    }
    var k := t.kids[i];
    SeenParts(t);
    KidIn(t, i);
    var a := DepthAfter(nodes, inner, link, first, n, c, e, k, 0);
    var b := DepthAfter(nodes, inner, link, first, n, c, e, t, i + 1);
    d := a + b + e + 2;
    EndsLater(KidAt(k, 0), a, d - 2);
    EndsLater(KidAt(t, i + 1), b, d - 2);
    KidPointers(nodes, inner, link, first, n, c, t, i);
    if k.node == link {
      EndsLater(n.child, e, d - 2);
      EndsStep(n, d - 2);
    }
    EndsLater(KidAt(k, 0), d - 2, d - 1);
    EndsLater(KidAt(t, i + 1), d - 2, d - 1);
    EndsStep(k.node, d - 1);
  }

  lemma NoWay()
    ensures Ends(null, 0)
  {
  }

  lemma EndsStep(n: Node, d: nat)
    requires Ends(n.child, d) && Ends(n.next, d)
    ensures Ends(n, d + 1)
  {
  }

  /** Where the pointers of an element lead now. */
  twostate lemma KidPointers(new nodes: set<Node>, new inner: set<Node>, new link: Node, new first: bool,
    new n: Node, new c: Node?, t: Tree, new i: nat)
    requires Linked(nodes, inner, link, first, n, c) && Reach(t) <= nodes && ReachAll(t.kids) <= inner
    requires old(Seen(t)) && i < |t.kids|
    ensures var k := t.kids[i];
      && (if first && k.node == link then k.node.child == n && c == KidAt(k, 0) else k.node.child == KidAt(k, 0))
      && (if !first && k.node == link then k.node.next == n && c == KidAt(t, i + 1) else k.node.next == KidAt(t, i + 1))
  {
    hide Seen, Leads, Reach, ReachAll;
    ReachBefore(t);
    SeenParts(t);
    SeenParts(t.kids[i]);
    LedOn(t, i);
    LedOn(t.kids[i], 0);
    KidIn(t, i);
  }

  ghost function Size(t: Tree): nat {
    1 + SizeAll(t.kids)
  }

  ghost function SizeAll(ts: seq<Tree>): nat {
    if ts == [] then 0 else Size(ts[0]) + SizeAll(ts[1..])
  }

  lemma {:induction false} Smaller(ts: seq<Tree>, i: nat)
    requires i < |ts|
    ensures Size(ts[i]) <= SizeAll(ts)
  {
    if i > 0 {
      Smaller(ts[1..], i - 1);
    }
  }

  /** As far as the old list does not come to the pointer the new one is the same. */
  twostate lemma {:induction false} Along(new nodes: set<Node>, new inner: set<Node>, new link: Node, new first: bool,
    new n: Node, new c: Node?, s: Tree, new t: Tree, new j: nat)
    requires Linked(nodes, inner, link, first, n, c) && ReachAll(s.kids) <= inner && old(Leads(s.node, Roots(s.kids)))
    requires Leads(t.node, Roots(t.kids)) && t.node.child == KidAt(s, 0) && j < |s.kids|
    requires forall i | 0 <= i < j :: s.kids[i].node != link
    ensures j < |t.kids| && t.kids[j].node == s.kids[j].node
  {
    if j > 0 {
      Along(nodes, inner, link, first, n, c, s, t, j - 1);
      ReachBefore(s);
      LedOn(s, j - 1);
      KidIn(s, j - 1);
      LeadsAt(t.node, Roots(t.kids), j - 1);
    }
  }

  /** Where the old picture meets the pointer, the new one goes on to n. */
  twostate lemma {:induction false} Follow(new nodes: set<Node>, new inner: set<Node>, new link: Node, new first: bool,
    new n: Node, new c: Node?, s: Tree, new t: Tree) returns (u: Tree)
    requires Linked(nodes, inner, link, first, n, c) && Reach(s) <= nodes && ReachAll(s.kids) <= inner
    requires old(Seen(s)) && Seen(t) && t.node.child == KidAt(s, 0) && link in ReachAll(s.kids)
    ensures Seen(u) && u.node == n && Size(u) < Size(t)
  {
    ReachBefore(s);
    SeenParts(s);
    var i := FirstWith(s.kids, link);
    KidIn(s, i);
    NotBefore(s, link, i);
    var k := s.kids[i];
    SeenParts(k);
    LedOn(k, 0);
    Along(nodes, inner, link, first, n, c, s, t, i);
    Smaller(t.kids, i);
    NextKid(t, i);
    FirstKid(t.kids[i]);
    if k.node != link {
      u := Follow(nodes, inner, link, first, n, c, k, t.kids[i]);
    } else if first {
      Smaller(t.kids[i].kids, 0);
      u := t.kids[i].kids[0];
    } else {
      Smaller(t.kids, i + 1);
      u := t.kids[i + 1];
    }
  }

  lemma {:induction false} FirstWith(ts: seq<Tree>, n: Node) returns (i: nat)
    requires n in ReachAll(ts)
    ensures i < |ts| && n in Reach(ts[i]) && forall j | 0 <= j < i :: n !in Reach(ts[j])
  {
    i := 0;
    while n !in Reach(ts[i])
      invariant i < |ts| && exists j :: i <= j < |ts| && n in Reach(ts[j])
      invariant forall j | 0 <= j < i :: n !in Reach(ts[j])
      decreases |ts| - i
    {
      i := i + 1;
    }
  }

  lemma NotBefore(s: Tree, link: Node, i: nat)
    requires i < |s.kids| && forall j | 0 <= j < i :: link !in Reach(s.kids[j])
    ensures forall j | 0 <= j < i :: s.kids[j].node != link
  {
    forall j | 0 <= j < i ensures s.kids[j].node != link {
      KidsReach(s.kids[j]);
    }
  }

  /** When n, whose contents are those of s, has been linked into a list, what could be read before can be read still if
      and only if it does not look at the pointer or n does not show the list: that would lead round in a circle. */
  twostate lemma LinkExactly(new nodes: set<Node>, new inner: set<Node>, new link: Node, new first: bool, new n: Node,
    new c: Node?, new q: Tree, new s: Tree)
    requires Linked(nodes, inner, link, first, n, c) && n.next == c && old(allocated(q)) && old(allocated(s))
    requires Reach(q) <= nodes && ReachAll(q.kids) <= inner && Reach(s) <= nodes && ReachAll(s.kids) <= inner
    requires old(Seen(q)) && old(Seen(s)) && n.child == KidAt(s, 0)
    ensures Finite(q.node) <==> !Meets(q, link, first) || link !in ReachAll(s.kids)
  {
    hide Seen, Reach, ReachAll, Linked, Ends, Finite, Meets;
    if link !in ReachAll(s.kids) {
      var e := DepthAfter(nodes, inner, link, first, n, c, 0, s, 0);
      LinkedFinite(nodes, inner, link, first, n, c, e, q);
    } else if !Meets(q, link, first) {
      LinkedFinite(nodes, inner, link, first, n, c, 0, q);
    } else if Finite(q.node) {
      var t := FiniteSeen(q.node);
      var u := FollowRoot(nodes, inner, link, first, n, c, q, t);
      var v := Follow(nodes, inner, link, first, n, c, s, u);
      OnePicture(u, v);
    }
  }

  twostate lemma LinkedFinite(new nodes: set<Node>, new inner: set<Node>, new link: Node, new first: bool, new n: Node,
    new c: Node?, new e: nat, q: Tree)
    requires Linked(nodes, inner, link, first, n, c) && Reach(q) <= nodes && ReachAll(q.kids) <= inner
    requires old(Seen(q)) && (Meets(q, link, first) ==> Ends(n.child, e) && n.next == c)
    ensures Finite(q.node)
  {
    hide Seen, Reach, ReachAll, Linked, Ends, Finite;
    RootChild(nodes, inner, link, first, n, c, q);
    var d := DepthAfter(nodes, inner, link, first, n, c, e, q, 0);
    if first && q.node == link {
      EndsLater(KidAt(q, 0), d, d + e);
      EndsLater(n.child, e, d + e);
      EndsStep(n, d + e);
      EndsFinite(q.node, d + e + 1);
    } else {
      EndsFinite(q.node, d);
    }
  }

  twostate lemma FollowRoot(new nodes: set<Node>, new inner: set<Node>, new link: Node, new first: bool, new n: Node,
    new c: Node?, q: Tree, new t: Tree) returns (u: Tree)
    requires Linked(nodes, inner, link, first, n, c) && Reach(q) <= nodes && ReachAll(q.kids) <= inner
    requires old(Seen(q)) && Seen(t) && t.node == q.node && Meets(q, link, first)
    ensures Seen(u) && u.node == n
  {
    RootChild(nodes, inner, link, first, n, c, q);
    FirstKid(t);
    if first && q.node == link {
      NextKid(t, 0);
      u := t.kids[0];
    } else {
      u := Follow(nodes, inner, link, first, n, c, q, t);
    }
  }

  twostate lemma RootChild(new nodes: set<Node>, new inner: set<Node>, new link: Node, new first: bool, new n: Node,
    new c: Node?, t: Tree)
    requires Linked(nodes, inner, link, first, n, c) && Reach(t) <= nodes && old(Seen(t))
    ensures if first && t.node == link then t.node.child == n && c == KidAt(t, 0) else t.node.child == KidAt(t, 0)
  {
    ReachBefore(t);
    KidsReach(t);
    SeenParts(t);
    LedOn(t, 0);
  }

  /** The node whose pointer leads to a new element at index k. */
  ghost function LinkTo(parent: Node, ks: seq<Node>, k: nat): Node
    requires k <= |ks|
  {
    if k == 0 then parent else ks[k - 1]
  }

  /** With an item whose contents are those of s at index k of the parent's list, q can be read if and only if it does
      not look at the pointer to the item or s does not show the list. */
  ghost predicate StillReadable(q: Tree, s: Tree, parent: Node, ks: seq<Node>, k: nat)
    requires k <= |ks|
    reads *
  {
    var link := LinkTo(parent, ks, k);
    Finite(q.node) <==> !Meets(q, link, k == 0) || link !in ReachAll(s.kids)
  }

  twostate lemma WasChild(s: Tree)
    requires old(Seen(s))
    ensures old(s.node.child) == KidAt(s, 0)
  {
    SeenParts(s);
    LedOn(s, 0);
  }

  twostate lemma InsertLinks(new nodes: set<Node>, new inner: set<Node>, new parent: Node, ks: seq<Node>, new k: nat,
    new n: Node)
    requires old(allocated(parent)) && k <= |ks| && old(Siblings(parent, ks)) && Siblings(parent, InsertAt(ks, k, n))
    requires forall m | m in nodes && old(allocated(m)) && m != parent :: m.child == old(m.child)
    requires forall m | m in inner && old(allocated(m)) && m !in ks :: m.next == old(m.next)
    ensures Linked(nodes, inner, LinkTo(parent, ks, k), k == 0, n, if k < |ks| then ks[k] else null)
    ensures n.next == if k < |ks| then ks[k] else null
  {
    WasSiblings(parent, ks);
    InsertedAt(ks, k, n);
    var rs := InsertAt(ks, k, n);
    forall i | 0 <= i < |ks| ensures ks[i].next == if i + 1 == k then n else old(ks[i].next) {
      WasNext(parent, ks, i);
      SiblingsAt(parent, rs, if i < k then i else i + 1);
    }
    SiblingsAt(parent, rs, k);
    if k > 0 {
      WasNext(parent, ks, k - 1);
    }
    assert parent.child == rs[0];
    hide Siblings, Leads, InsertAt;
    forall m | m in inner && old(allocated(m))
      ensures m.next == if k > 0 && m == ks[k - 1] then n else old(m.next)
    {
      if m in ks {
        var i :| 0 <= i < |ks| && ks[i] == m;
        assert m.next == if i + 1 == k then n else old(ks[i].next);
      }
    }
  }

  /** The same for an item linked in at index k. An item in front of others must not be shown itself: from it the way
      goes on to them now. */
  twostate lemma InsertExactly(new parent: Node, ks: seq<Node>, new k: nat, new n: Node, new q: Tree, new s: Tree)
    requires old(allocated(parent)) && k <= |ks| && old(Siblings(parent, ks)) && Siblings(parent, InsertAt(ks, k, n))
    requires old(allocated(q)) && old(allocated(s)) && old(Seen(q)) && old(Seen(s)) && n.child == KidAt(s, 0)
    requires forall m | m in Reach(q) + Reach(s) && old(allocated(m)) && m != parent :: m.child == old(m.child)
    requires forall m | m in ReachAll(q.kids) + ReachAll(s.kids) && old(allocated(m)) && m !in ks ::
      m.next == old(m.next)
    ensures StillReadable(q, s, parent, ks, k)
  {
    hide Siblings, Reach, ReachAll, Seen, Finite, Linked, Meets, InsertAt;
    var nodes, inner := Reach(q) + Reach(s), ReachAll(q.kids) + ReachAll(s.kids);
    InsertLinks(nodes, inner, parent, ks, k, n);
    LinkExactly(nodes, inner, LinkTo(parent, ks, k), k == 0, n, if k < |ks| then ks[k] else null, q, s);
  }

  twostate lemma WasSiblings(new parent: Node, ks: seq<Node>)
    requires old(allocated(parent)) && old(Siblings(parent, ks))
    ensures old(Leads(parent, ks)) && NoRepeats(ks)
    ensures old(parent.child) == if ks == [] then null else ks[0]
  {
  }
}
