/** Trees inside trees: replacing the children of one node somewhere below a root. A reference's tree has no
    children here: what it points to belongs to another node. */
module Forests {
  import opened Nodes
  import opened Lists

  ghost predicate Shallow(t: Tree) {
    (t.borrowed ==> t.kids == []) && forall i | 0 <= i < |t.kids| :: Shallow(t.kids[i])
  }

  ghost predicate ShallowAll(ts: seq<Tree>) {
    forall i | 0 <= i < |ts| :: Shallow(ts[i])
  }

  /** Everything reached is owned. */
  lemma {:induction false} ShallowReach(t: Tree)
    requires Shallow(t)
    ensures forall n | n in Reach(t) :: n in Owned(t)
    ensures forall n | n in ReachAll(t.kids) :: n in OwnedAll(t.kids)
  {
    forall n | n in ReachAll(t.kids) ensures n in OwnedAll(t.kids) {
      var i :| 0 <= i < |t.kids| && n in Reach(t.kids[i]);
      ShallowReach(t.kids[i]);
      assert n in Owned(t.kids[i]);
    }
  }

  // ---------- Paths ----------

  /** The tree without what lies behind its references. */
  ghost function Cut(t: Tree): Tree {
    t.(kids := if t.borrowed then [] else seq(|t.kids|, i requires 0 <= i < |t.kids| => Cut(t.kids[i])))
  }

  lemma {:induction false} CutOwned(t: Tree)
    ensures Owned(Cut(t)) == Owned(t)
  {
    if !t.borrowed {
      forall i | 0 <= i < |t.kids| ensures Owned(Cut(t).kids[i]) == Owned(t.kids[i]) {
        CutOwned(t.kids[i]);
      }
      assert OwnedAll(Cut(t).kids) == OwnedAll(t.kids);
    }
  }

  ghost predicate IsPath(t: Tree, p: seq<nat>) {
    p == [] || (p[0] < |t.kids| && IsPath(t.kids[p[0]], p[1..]))
  }

  ghost function At(t: Tree, p: seq<nat>): Tree
    requires IsPath(t, p)
  {
    if p == [] then t else At(t.kids[p[0]], p[1..])
  }

  /** The tree with other children at the end of the path. */
  ghost function Put(t: Tree, p: seq<nat>, kids: seq<Tree>): (r: Tree)
    requires IsPath(t, p)
    ensures r == t.(kids := r.kids)
    decreases p
  {
    if p == [] then t.(kids := kids)
    else t.(kids := t.kids[p[0] := Put(t.kids[p[0]], p[1..], kids)])
  }

  lemma OwnedMember(ts: seq<Tree>, i: nat)
    requires i < |ts|
    ensures Owned(ts[i]) <= OwnedAll(ts) && Reach(ts[i]) <= ReachAll(ts)
  {
  }

  /** A part of a good tree is a good tree. */
  lemma {:induction false} PartOf(t: Tree, p: seq<nat>)
    requires Separate(t) && Shallow(t) && IsPath(t, p)
    ensures var s := At(t, p); Separate(s) && Shallow(s) && Owned(s) <= Owned(t) && Reach(s) <= Reach(t)
    decreases p
  {
    if p != [] {
      OwnedMember(t.kids, p[0]);
      PartOf(t.kids[p[0]], p[1..]);
    }
  }

  lemma {:induction false} PartHolds(t: Tree, p: seq<nat>)
    requires Shallow(t) && Holds(t) && IsPath(t, p)
    ensures Holds(At(t, p))
    decreases p
  {
    if p != [] {
      PartHolds(t.kids[p[0]], p[1..]);
    }
  }

  // ---------- Sequences of disjoint sets ----------

  ghost function Union(ss: seq<set<object>>): set<object> {
    set i, o | 0 <= i < |ss| && o in ss[i] :: o
  }

  ghost predicate Apart(ss: seq<set<object>>) {
    forall i, j, o | 0 <= i < |ss| && 0 <= j < |ss| && o in ss[i] && o in ss[j] :: i == j
  }

  lemma UnionUpdate(ss: seq<set<object>>, i: nat, s: set<object>)
    requires i < |ss| && Apart(ss)
    ensures Union(ss[i := s]) == (Union(ss) - ss[i]) + s
    ensures s !! Union(ss) - ss[i] ==> Apart(ss[i := s])
  {
    var us := ss[i := s];
    assert us[i] == s;
    forall o | o in Union(us) ensures o in (Union(ss) - ss[i]) + s {
      var j :| 0 <= j < |us| && o in us[j];
      assert j != i ==> o in ss[j];
    }
    forall o | o in (Union(ss) - ss[i]) + s ensures o in Union(us) {
      if o !in s {
        var j :| 0 <= j < |ss| && o in ss[j];
        assert us[j] == ss[j];
      }
    }
    forall j, k, o | 0 <= j < |us| && 0 <= k < |us| && o in us[j] && o in us[k] && s !! Union(ss) - ss[i]
      ensures j == k
    {
      assert j != i ==> o in ss[j] && o in Union(ss);
      assert k != i ==> o in ss[k] && o in Union(ss);
    }
  }

  ghost function OwnedEach(ts: seq<Tree>): (ss: seq<set<object>>)
    ensures |ss| == |ts| && forall i | 0 <= i < |ts| :: ss[i] == Owned(ts[i])
  {
    seq(|ts|, i requires 0 <= i < |ts| => Owned(ts[i]))
  }

  lemma OwnedIsUnion(ts: seq<Tree>)
    ensures OwnedAll(ts) == Union(OwnedEach(ts))
    ensures SeparateAll(ts) <==> Apart(OwnedEach(ts)) && forall i | 0 <= i < |ts| :: Separate(ts[i])
  {
    var ss := OwnedEach(ts);
    hide Owned, OwnedEach, Separate;
    forall o | o in OwnedAll(ts) ensures o in Union(ss) {
      var i :| 0 <= i < |ts| && o in Owned(ts[i]);
      assert o in ss[i];
    }
    forall o | o in Union(ss) ensures o in OwnedAll(ts) {
      var i :| 0 <= i < |ss| && o in ss[i];
      assert o in Owned(ts[i]);
    }
    if Apart(ss) {
      forall i, j | 0 <= i < j < |ts| ensures Owned(ts[i]) !! Owned(ts[j]) {
        assert ss[i] == Owned(ts[i]) && ss[j] == Owned(ts[j]);
      }
    }
    if forall i, j | 0 <= i < j < |ts| :: Owned(ts[i]) !! Owned(ts[j]) {
      forall i, j, o | 0 <= i < |ss| && 0 <= j < |ss| && o in ss[i] && o in ss[j] ensures i == j {
        assert ss[i] == Owned(ts[i]) && ss[j] == Owned(ts[j]);
      }
    }
  }

  lemma OwnedUpdate(ts: seq<Tree>, i: nat, u: Tree)
    requires i < |ts| && SeparateAll(ts)
    ensures OwnedAll(ts[i := u]) == (OwnedAll(ts) - Owned(ts[i])) + Owned(u)
    ensures Separate(u) && Owned(u) !! OwnedAll(ts) - Owned(ts[i]) ==> SeparateAll(ts[i := u])
  {
    hide Owned, SeparateAll, OwnedAll, Separate, Union, Apart;
    OwnedIsUnion(ts);
    OwnedIsUnion(ts[i := u]);
    UnionUpdate(OwnedEach(ts), i, Owned(u));
    assert OwnedEach(ts[i := u]) == OwnedEach(ts)[i := Owned(u)];
  }

  lemma InsertedAt<T>(s: seq<T>, i: nat, x: T)
    requires i <= |s|
    ensures |InsertAt(s, i, x)| == |s| + 1
    ensures forall j | 0 <= j <= |s| :: InsertAt(s, i, x)[j] == if j < i then s[j] else if j == i then x else s[j - 1]
  {
  }

  lemma UnionSplice(ss: seq<set<object>>, i: nat, s: set<object>)
    requires i <= |ss|
    ensures Union(InsertAt(ss, i, s)) == Union(ss) + s
  {
    var us := InsertAt(ss, i, s);
    InsertedAt(ss, i, s);
    hide InsertAt;
    forall o | o in Union(us) ensures o in Union(ss) + s {
      var j :| 0 <= j < |us| && o in us[j];
    }
    assert us[i] == s;
    forall o | o in Union(ss) ensures o in Union(us) {
      var j :| 0 <= j < |ss| && o in ss[j];
      assert o in us[if j < i then j else j + 1];
    }
  }

  lemma ApartSplice(ss: seq<set<object>>, i: nat, s: set<object>)
    requires i <= |ss|
    ensures Apart(InsertAt(ss, i, s)) ==> Apart(ss) && s !! Union(ss)
  {
    var us := InsertAt(ss, i, s);
    InsertedAt(ss, i, s);
    hide InsertAt;
    if Apart(us) {
      forall j, k, o | 0 <= j < |ss| && 0 <= k < |ss| && o in ss[j] && o in ss[k] ensures j == k {
        assert o in us[if j < i then j else j + 1] && o in us[if k < i then k else k + 1];
      }
      assert us[i] == s;
      forall o | o in Union(ss) ensures o !in s {
        var j :| 0 <= j < |ss| && o in ss[j];
        assert o in us[if j < i then j else j + 1];
      }
    }
  }

  lemma ApartSpliced(ss: seq<set<object>>, i: nat, s: set<object>)
    requires i <= |ss| && Apart(ss) && s !! Union(ss)
    ensures Apart(InsertAt(ss, i, s))
  {
    var us := InsertAt(ss, i, s);
    InsertedAt(ss, i, s);
    hide InsertAt;
    forall j, k, o | 0 <= j < |us| && 0 <= k < |us| && o in us[j] && o in us[k] ensures j == k {
      assert j < i ==> o in ss[j] && o in Union(ss);
      assert j > i ==> o in ss[j - 1] && o in Union(ss);
      assert k < i ==> o in ss[k] && o in Union(ss);
      assert k > i ==> o in ss[k - 1] && o in Union(ss);
    }
  }

  lemma EachInsert(ts: seq<Tree>, i: nat, u: Tree)
    requires i <= |ts|
    ensures OwnedEach(InsertAt(ts, i, u)) == InsertAt(OwnedEach(ts), i, Owned(u))
  {
    InsertedAt(ts, i, u);
    InsertedAt(OwnedEach(ts), i, Owned(u));
    var a, b := OwnedEach(InsertAt(ts, i, u)), InsertAt(OwnedEach(ts), i, Owned(u));
    hide Owned, OwnedEach, InsertAt;
    forall j | 0 <= j <= |ts| ensures a[j] == b[j] {
      assert a[j] == Owned(InsertAt(ts, i, u)[j]);
    }
    assert |a| == |b| == |ts| + 1;
  }

  lemma ShallowInsert(ts: seq<Tree>, i: nat, u: Tree)
    requires i <= |ts|
    ensures ShallowAll(InsertAt(ts, i, u)) <==> ShallowAll(ts) && Shallow(u)
  {
    var us := InsertAt(ts, i, u);
    InsertedAt(ts, i, u);
    hide Shallow, InsertAt;
    assert us[i] == u;
    if ShallowAll(us) {
      forall j | 0 <= j < |ts| ensures Shallow(ts[j]) {
        assert us[if j < i then j else j + 1] == ts[j];
      }
    }
  }

  lemma SeparateInsert(ts: seq<Tree>, i: nat, u: Tree)
    requires i <= |ts|
    ensures var us := InsertAt(ts, i, u);
      (forall j | 0 <= j < |us| :: Separate(us[j])) <==> (forall j | 0 <= j < |ts| :: Separate(ts[j])) && Separate(u)
  {
    var us := InsertAt(ts, i, u);
    InsertedAt(ts, i, u);
    hide Separate, InsertAt;
    assert us[i] == u;
    if forall j | 0 <= j < |us| :: Separate(us[j]) {
      forall j | 0 <= j < |ts| ensures Separate(ts[j]) {
        assert us[if j < i then j else j + 1] == ts[j];
      }
    }
  }

  lemma OwnedInsert(ts: seq<Tree>, i: nat, u: Tree)
    requires i <= |ts|
    ensures var us := InsertAt(ts, i, u);
      && OwnedAll(us) == OwnedAll(ts) + Owned(u)
      && (ShallowAll(us) <==> ShallowAll(ts) && Shallow(u))
      && (SeparateAll(us) <==> SeparateAll(ts) && Separate(u) && Owned(u) !! OwnedAll(ts))
  {
    OwnedIsUnion(ts);
    OwnedIsUnion(InsertAt(ts, i, u));
    UnionSplice(OwnedEach(ts), i, Owned(u));
    ApartSplice(OwnedEach(ts), i, Owned(u));
    if SeparateAll(ts) && Owned(u) !! OwnedAll(ts) {
      ApartSpliced(OwnedEach(ts), i, Owned(u));
    }
    EachInsert(ts, i, u);
    ShallowInsert(ts, i, u);
    SeparateInsert(ts, i, u);
    hide Owned, OwnedAll, Separate, Shallow, Union, Apart, InsertAt, SeparateAll, ShallowAll, OwnedEach;
  }

  lemma OwnedRemove(ts: seq<Tree>, i: nat)
    requires i < |ts| && SeparateAll(ts) && ShallowAll(ts)
    ensures var us := RemoveAt(ts, i);
      && OwnedAll(ts) == OwnedAll(us) + Owned(ts[i]) && Owned(ts[i]) !! OwnedAll(us)
      && SeparateAll(us) && ShallowAll(us)
  {
    DetachInsert(ts, i);
    OwnedInsert(RemoveAt(ts, i), i, ts[i]);
  }

  /** The blocks of a tree whose children at one place have changed. */
  lemma {:induction false} PutOwned(t: Tree, p: seq<nat>, kids: seq<Tree>)
    requires Separate(t) && Shallow(t) && IsPath(t, p) && !At(t, p).borrowed
    requires SeparateAll(kids) && ShallowAll(kids) && OwnedAll(kids) !! Owned(t) - OwnedAll(At(t, p).kids)
    ensures OwnedAll(At(t, p).kids) <= Owned(t)
    ensures Owned(Put(t, p, kids)) == (Owned(t) - OwnedAll(At(t, p).kids)) + OwnedAll(kids)
    ensures Separate(Put(t, p, kids)) && Shallow(Put(t, p, kids))
    decreases p
  {
    hide OwnedAll, SeparateAll;
    if p == [] {
      Blocks(t, kids);
    } else {
      var i := p[0];
      var k := t.kids[i];
      assert SeparateAll(t.kids) && Separate(k) && Shallow(k) by { Kid(t, i); }
      OwnedMember(t.kids, i);
      assert Owned(k) <= Owned(t);
      PutOwned(k, p[1..], kids);
      var u := Put(k, p[1..], kids);
      OwnedUpdate(t.kids, i, u);
      Blocks(t, t.kids[i := u]);
    }
  }

  lemma Kid(t: Tree, i: nat)
    requires Separate(t) && Shallow(t) && i < |t.kids|
    ensures !t.borrowed && SeparateAll(t.kids) && Separate(t.kids[i]) && Shallow(t.kids[i])
  {
  }

  lemma Blocks(t: Tree, kids: seq<Tree>)
    requires Separate(t) && Shallow(t) && !t.borrowed && SeparateAll(kids) && ShallowAll(kids)
    requires OwnBlocks(t) !! OwnedAll(kids)
    ensures var u := t.(kids := kids);
      Owned(u) == OwnBlocks(t) + OwnedAll(kids) && Separate(u) && Shallow(u)
    ensures OwnBlocks(t) !! OwnedAll(t.kids) && Owned(t) == OwnBlocks(t) + OwnedAll(t.kids)
  {
    assert OwnBlocks(t.(kids := kids)) == OwnBlocks(t);
  }

  // ---------- Two states ----------

  /** Among the given nodes nothing has changed but the child of one and the sibling links of some. */
  twostate predicate Relinked(new nodes: set<Node>, new parent: Node, new links: set<Node>)
    reads nodes
  {
    forall n | n in nodes && old(allocated(n)) ::
      && n.kind == old(n.kind) && n.isReference == old(n.isReference) && n.name == old(n.name)
      && n.valuestring == old(n.valuestring) && n.valueint == old(n.valueint) && n.valuedouble == old(n.valuedouble)
      && (n != parent ==> n.child == old(n.child))
      && (n !in links ==> n.next == old(n.next) && n.prev == old(n.prev))
  }

  twostate lemma {:induction false} StillHolds(new nodes: set<Node>, new parent: Node, new links: set<Node>, t: Tree)
    requires Relinked(nodes, parent, links) && Reach(t) <= nodes && old(Holds(t))
    requires parent !in Reach(t) && forall n | n in links :: n !in ReachAll(t.kids)
    ensures Holds(t)
  {
    KidsReach(t);
    ReachBefore(t);
    if !t.borrowed {
      HoldsParts(t);
      forall i | 0 <= i < |t.kids|
        ensures Holds(t.kids[i]) && t.kids[i].node in nodes && t.kids[i].node !in links
      {
        KidsReach(t.kids[i]);
        OwnedMember(t.kids, i);
        StillHolds(nodes, parent, links, t.kids[i]);
      }
      hide Holds, Reach, ReachAll;
      StillSiblings(nodes, parent, links, t);
    }
  }

  twostate lemma {:induction false} ReachBefore(t: Tree)
    ensures forall n | n in Reach(t) :: old(allocated(n))
  {
    forall n | n in Reach(t) ensures old(allocated(n)) {
      if n != t.node {
        assert n in ReachAll(t.kids);
        var i :| 0 <= i < |t.kids| && n in Reach(t.kids[i]);
        ReachBefore(t.kids[i]);
      }
    }
  }

  twostate lemma StillSiblings(new nodes: set<Node>, new parent: Node, new links: set<Node>, t: Tree)
    requires Relinked(nodes, parent, links) && t.node in nodes && t.node != parent
    requires old(Siblings(t.node, Roots(t.kids)))
    requires forall k | k in Roots(t.kids) :: k in nodes && k !in links
    ensures Siblings(t.node, Roots(t.kids))
  {
    forall o | o in ElementSet(Roots(t.kids)) ensures o in nodes && o !in links && old(allocated(o)) {
      assert o in Roots(t.kids);
    }
    hide Siblings, ElementSet;
  }

  lemma KidsReach(t: Tree)
    ensures t.node in Reach(t) && ReachAll(t.kids) <= Reach(t)
  {
  }

  lemma RootsOwned(ts: seq<Tree>)
    ensures forall n | n in Roots(ts) :: n in OwnedAll(ts)
  {
    forall i | 0 <= i < |ts| ensures ts[i].node in OwnedAll(ts) {
      assert ts[i].node in Owned(ts[i]);
    }
  }

  lemma BelowOwned(t: Tree)
    requires Shallow(t)
    ensures OwnedAll(t.kids) <= Owned(t)
  {
  }

  lemma {:induction false} Spot(t: Tree, p: seq<nat>)
    requires Shallow(t) && IsPath(t, p)
    ensures At(t, p).node in Owned(t)
    ensures forall n | n in Roots(At(t, p).kids) :: n in OwnedAll(t.kids)
    decreases p
  {
    if p == [] {
      RootsOwned(t.kids);
    } else {
      Spot(t.kids[p[0]], p[1..]);
      OwnedMember(t.kids, p[0]);
      BelowOwned(t.kids[p[0]]);
    }
  }

  /** What lies beside the path is out of reach of its end and of the children there. */
  lemma Beside(t: Tree, p: seq<nat>, j: nat)
    requires Separate(t) && Shallow(t) && IsPath(t, p) && p != [] && j < |t.kids|
    ensures t.node != At(t, p).node && t.kids[j].node !in Roots(At(t, p).kids)
    ensures j != p[0] ==> At(t, p).node !in Reach(t.kids[j])
    ensures j != p[0] ==> forall n | n in Roots(At(t, p).kids) :: n !in Reach(t.kids[j])
    ensures forall n | n in Reach(t.kids[j]) :: n in Reach(t) && n in Owned(t)
  {
    var i := p[0];
    Kid(t, i);
    Spot(t.kids[i], p[1..]);
    KidOwned(t);
    KidOwned2(t.kids[i]);
    OwnedMember(t.kids, i);
    OwnedMember(t.kids, j);
    ShallowReach(t.kids[j]);
    NodeOwned(t);
    NodeOwned(t.kids[j]);
    assert j != i ==> Owned(t.kids[j]) !! Owned(t.kids[i]);
    hide Owned, OwnedAll, Separate, SeparateAll, Shallow, Reach;
    KidsReach(t);
  }

  lemma NodeOwned(t: Tree)
    ensures t.node in Owned(t)
  {
  }

  lemma KidOwned2(t: Tree)
    requires Separate(t) && Shallow(t)
    ensures t.node !in OwnedAll(t.kids) && OwnedAll(t.kids) <= Owned(t)
  {
  }

  lemma HoldsFrom(r: Tree)
    requires r.node.kind == r.kind && r.node.isReference == r.borrowed && r.node.name == r.name
    requires r.node.valuestring == r.text && r.node.valueint == r.whole && r.node.valuedouble == r.number
    requires Siblings(r.node, Roots(r.kids)) && HoldsAll(r.kids)
    ensures Holds(r)
  {
  }

  /** The tree around a node whose list of children has been relinked. */
  twostate lemma {:induction false} Rebuilt(new nodes: set<Node>, new parent: Node, new links: set<Node>, t: Tree,
    new p: seq<nat>, new kids: seq<Tree>)
    requires Relinked(nodes, parent, links) && Reach(t) <= nodes && old(Holds(t))
    requires Separate(t) && Shallow(t) && IsPath(t, p) && At(t, p).node == parent && !At(t, p).borrowed
    requires forall n | n in links && n in Owned(t) :: n in Roots(At(t, p).kids)
    requires Siblings(parent, Roots(kids)) && HoldsAll(kids)
    ensures Holds(Put(t, p, kids))
    decreases p, 2
  {
    KidsReach(t);
    if p != [] {
      HoldsParts(t);
      Kid(t, p[0]);
      hide Owned, OwnedAll, Separate, SeparateAll, Shallow, Holds, Siblings, Reach, ReachAll, ElementSet;
      RebuiltKids(nodes, parent, links, t, p, kids);
    }
    HoldsFrom(Put(t, p, kids));
  }

  twostate lemma HoldsParts(t: Tree)
    requires old(Holds(t)) && !t.borrowed
    ensures old(Siblings(t.node, Roots(t.kids)))
    ensures forall j | 0 <= j < |t.kids| :: old(Holds(t.kids[j]))
  {
  }

  twostate lemma {:induction false} PartHeld(t: Tree, new p: seq<nat>)
    requires Shallow(t) && old(Holds(t)) && IsPath(t, p)
    ensures old(Holds(At(t, p)))
    decreases p
  {
    if p != [] {
      PartHeld(t.kids[p[0]], p[1..]);
    }
  }

  /** A child of a node on the path, which may be on the path itself. */
  twostate lemma {:induction false} RebuiltKid(new nodes: set<Node>, new parent: Node, new links: set<Node>, t: Tree,
    new p: seq<nat>, new kids: seq<Tree>, new j: nat)
    requires Relinked(nodes, parent, links) && Reach(t) <= nodes
    requires Separate(t) && Shallow(t) && IsPath(t, p) && At(t, p).node == parent && !At(t, p).borrowed
    requires p != [] && j < |t.kids| && old(Holds(t.kids[j]))
    requires forall n | n in links && n in Owned(t) :: n in Roots(At(t, p).kids)
    requires Siblings(parent, Roots(kids)) && HoldsAll(kids)
    ensures Holds(Put(t, p, kids).kids[j]) && t.kids[j].node in nodes && t.kids[j].node !in links
    decreases p, 0
  {
    hide Owned, OwnedAll, Separate, SeparateAll, Shallow, Holds, Siblings, Reach, ReachAll, Relinked, ElementSet;
    Beside(t, p, j);
    KidsReach(t.kids[j]);
    Kid(t, j);
    KidOwned2(t);
    OwnedMember(t.kids, j);
    if j == p[0] {
      Rebuilt(nodes, parent, links, t.kids[j], p[1..], kids);
    } else {
      StillHolds(nodes, parent, links, t.kids[j]);
    }
  }

  /** The children of a node on the path. */
  twostate lemma {:induction false} RebuiltKids(new nodes: set<Node>, new parent: Node, new links: set<Node>, t: Tree,
    new p: seq<nat>, new kids: seq<Tree>)
    requires Relinked(nodes, parent, links) && Reach(t) <= nodes
    requires old(Siblings(t.node, Roots(t.kids))) && forall j | 0 <= j < |t.kids| :: old(Holds(t.kids[j]))
    requires Separate(t) && Shallow(t) && IsPath(t, p) && At(t, p).node == parent && !At(t, p).borrowed
    requires forall n | n in links && n in Owned(t) :: n in Roots(At(t, p).kids)
    requires Siblings(parent, Roots(kids)) && HoldsAll(kids)
    requires p != []
    ensures Siblings(t.node, Roots(Put(t, p, kids).kids)) && HoldsAll(Put(t, p, kids).kids)
    decreases p, 1
  {
    var r := Put(t, p, kids);
    KidsReach(t);
    Beside(t, p, p[0]);
    hide Owned, OwnedAll, Separate, SeparateAll, Shallow, Holds, Siblings, Reach, ReachAll, Relinked, ElementSet;
    forall j | 0 <= j < |t.kids|
      ensures Holds(r.kids[j]) && t.kids[j].node in nodes && t.kids[j].node !in links
    {
      RebuiltKid(nodes, parent, links, t, p, kids, j);
    }
    StillSiblings(nodes, parent, links, t);
    assert Roots(r.kids) == Roots(t.kids);
  }

  lemma KidOwned(t: Tree)
    requires Separate(t) && !t.borrowed
    ensures t.node !in OwnedAll(t.kids) && OwnedAll(t.kids) <= Owned(t)
  {
  }
}
