/** All the trees a program holds, and the calls that build, rearrange and free them. Between calls every
    live block is owned by exactly one node of exactly one tree. */
module Ownership {
  import opened Nodes
  import opened Lists
  import opened Forests

  /** A tree nobody holds as a child. */
  ghost predicate Standalone(t: Tree)
    reads Reach(t)`kind, Reach(t)`isReference, Reach(t)`name, Reach(t)`valuestring, Reach(t)`valueint,
      Reach(t)`valuedouble, Reach(t)`child, Reach(t)`next, Reach(t)`prev
  {
    Holds(t) && Separate(t) && Shallow(t) && t.node.next == null && t.node.prev == null
  }

  ghost function BlocksOf(trees: set<Tree>): set<object> {
    set t, o | t in trees && o in Owned(t) :: o
  }

  ghost function NodesOf(trees: set<Tree>): set<Node> {
    set t, n | t in trees && n in Reach(t) :: n
  }

  ghost predicate AllStand(trees: set<Tree>)
    reads NodesOf(trees)`kind, NodesOf(trees)`isReference, NodesOf(trees)`name, NodesOf(trees)`valuestring,
      NodesOf(trees)`valueint, NodesOf(trees)`valuedouble, NodesOf(trees)`child, NodesOf(trees)`next,
        NodesOf(trees)`prev
  {
    forall t | t in trees :: Standalone(t)
  }

  /** No block belongs to two trees. */
  ghost predicate Disjoint(trees: set<Tree>) {
    forall t, u, o | t in trees && u in trees && o in Owned(t) && o in Owned(u) :: t == u
  }

  /** Trees leave and trees come. */
  ghost function Exchanged(trees: set<Tree>, gone: set<Tree>, come: set<Tree>): set<Tree> {
    trees - gone + come
  }

  /** What a tree that stays owns belongs to none that goes. */
  lemma Stays(trees: set<Tree>, gone: set<Tree>, t: Tree)
    requires Disjoint(trees) && gone <= trees && t in trees && t !in gone
    ensures forall o | o in Owned(t) :: o in BlocksOf(trees) && o !in BlocksOf(gone)
    ensures Reach(t) <= NodesOf(trees)
  {
    hide Owned;
    forall o | o in Owned(t) ensures o !in BlocksOf(gone) {
      forall g | g in gone ensures o !in Owned(g) {
      }
    }
  }

  lemma Exchange(trees: set<Tree>, gone: set<Tree>, come: set<Tree>)
    requires Disjoint(trees) && gone <= trees && Disjoint(come)
    requires BlocksOf(come) !! BlocksOf(trees) - BlocksOf(gone)
    ensures var after := Exchanged(trees, gone, come);
      Disjoint(after) && BlocksOf(after) == BlocksOf(trees) - BlocksOf(gone) + BlocksOf(come)
  {
    var after := trees - gone + come;
    hide Owned;
    forall t | t in after && t !in come
      ensures forall o | o in Owned(t) :: o in BlocksOf(trees) && o !in BlocksOf(gone)
    {
      Stays(trees, gone, t);
    }
    forall o | o in BlocksOf(trees) - BlocksOf(gone) ensures o in BlocksOf(after) {
      var t :| t in trees && o in Owned(t);
      assert t in after;
    }
    forall t, u, o | t in after && u in after && o in Owned(t) && o in Owned(u) ensures t == u {
      assert t in come || u in come ==> o in BlocksOf(come);
    }
  }

  /** What a relinking inside some of the trees leaves alone. */
  twostate lemma Untouched(trees: set<Tree>, new gone: set<Tree>, new nodes: set<Node>, new parent: Node,
    new links: set<Node>)
    requires Disjoint(trees) && gone <= trees && old(AllStand(trees))
    requires nodes == NodesOf(trees) && Relinked(nodes, parent, links)
    requires parent in BlocksOf(gone) && forall n | n in links :: n in BlocksOf(gone)
    ensures AllStand(trees - gone)
  {
    hide Owned, Reach, ReachAll, Holds, Separate, Shallow, BlocksOf, NodesOf, Disjoint, Relinked;
    forall t | t in trees - gone ensures Standalone(t) {
      UntouchedOne(trees, gone, nodes, parent, links, t);
    }
  }

  twostate lemma UntouchedOne(trees: set<Tree>, new gone: set<Tree>, new nodes: set<Node>, new parent: Node,
    new links: set<Node>, new t: Tree)
    requires Disjoint(trees) && gone <= trees && old(AllStand(trees)) && t in trees && t !in gone
    requires nodes == NodesOf(trees) && Relinked(nodes, parent, links)
    requires parent in BlocksOf(gone) && forall n | n in links :: n in BlocksOf(gone)
    ensures Standalone(t)
  {
    assert old(Standalone(t));
    ShallowReach(t);
    KidsReach(t);
    Stays(trees, gone, t);
    hide Owned, Reach, ReachAll, Holds, Separate, Shallow, BlocksOf, NodesOf, Disjoint;
    assert t.node !in links;
    assert t.node.next == old(t.node.next) && t.node.prev == old(t.node.prev);
    StillHolds(nodes, parent, links, t);
  }

  /** The children of a node whose list is relinked are themselves left alone. */
  twostate lemma KidsStill(new nodes: set<Node>, new links: set<Node>, s: Tree)
    requires Relinked(nodes, s.node, links) && Reach(s) <= nodes && old(Holds(s)) && !s.borrowed
    requires Separate(s) && Shallow(s) && forall n | n in links && n in Owned(s) :: n in Roots(s.kids)
    ensures forall i | 0 <= i < |s.kids| :: Holds(s.kids[i])
  {
    KidsReach(s);
    HoldsParts(s);
    forall i | 0 <= i < |s.kids| ensures Holds(s.kids[i]) {
      KidBelow(s, i);
      KidsReach(s.kids[i]);
      hide Owned, OwnedAll, Separate, Shallow, Reach, ReachAll, Holds, Relinked;
      StillHolds(nodes, s.node, links, s.kids[i]);
    }
  }

  /** Neither a node nor any of its children occur below a child. */
  lemma KidBelow(s: Tree, i: nat)
    requires Separate(s) && Shallow(s) && i < |s.kids|
    ensures s.node !in Reach(s.kids[i]) && Reach(s.kids[i]) <= ReachAll(s.kids)
    ensures forall n | n in Roots(s.kids) :: n !in ReachAll(s.kids[i].kids)
    ensures forall n | n in Reach(s.kids[i]) :: n in Owned(s)
  {
    var k := s.kids[i];
    Kid(s, i);
    ShallowReach(k);
    OwnedMember(s.kids, i);
    KidOwned2(s);
    hide Owned, OwnedAll, Reach, ReachAll, Separate, SeparateAll, Shallow;
    forall j | 0 <= j < |s.kids| ensures s.kids[j].node !in OwnedAll(k.kids) {
      KidsApart(s.kids, i, j);
    }
  }

  lemma KidsApart(ts: seq<Tree>, i: nat, j: nat)
    requires i < |ts| && j < |ts| && SeparateAll(ts) && Separate(ts[i]) && Shallow(ts[i])
    ensures ts[j].node !in OwnedAll(ts[i].kids)
  {
    KidOwned2(ts[i]);
    NodeOwned(ts[j]);
    hide Owned, OwnedAll, Separate, Shallow;
    if i < j {
      assert Owned(ts[i]) !! Owned(ts[j]);
    } else if j < i {
      assert Owned(ts[j]) !! Owned(ts[i]);
    }
  }

  // ---------- A tree becomes a child ----------

  lemma AttachedOwned(t: Tree, p: seq<nat>, k: Tree, i: nat)
    requires Separate(t) && Shallow(t) && Separate(k) && Shallow(k) && Owned(t) !! Owned(k)
    requires IsPath(t, p) && !At(t, p).borrowed && i <= |At(t, p).kids|
    ensures var t' := Put(t, p, InsertAt(At(t, p).kids, i, k));
      Separate(t') && Shallow(t') && Owned(t') == Owned(t) + Owned(k)
  {
    var s := At(t, p);
    PartOf(t, p);
    OwnBlocksApart(s);
    OwnedInsert(s.kids, i, k);
    hide Owned, OwnedAll, Separate, SeparateAll, Shallow, ShallowAll, InsertAt, At, Put, IsPath;
    PutOwned(t, p, InsertAt(s.kids, i, k));
  }

  /** A tree that shares nothing with another one is out of its reach. */
  lemma Foreign(s: Tree, k: Tree)
    requires Separate(s) && Shallow(s) && Separate(k) && Shallow(k) && Owned(s) !! Owned(k)
    ensures s.node !in Reach(k) && k.node !in ReachAll(k.kids) && k.node !in Owned(s)
    ensures forall n | n in Roots(s.kids) :: n !in Reach(k)
  {
    Spot(s, []);
    KidOwned2(s);
    NodeOwned(s);
    NodeOwned(k);
    ShallowReach(k);
    KidOwned2(k);
  }

  lemma HoldsInsert(ts: seq<Tree>, i: nat, k: Tree)
    requires i <= |ts| && (forall j | 0 <= j < |ts| :: Holds(ts[j])) && Holds(k)
    ensures HoldsAll(InsertAt(ts, i, k))
  {
    InsertedAt(ts, i, k);
    hide Holds, InsertAt;
  }

  twostate lemma AttachedKids(new nodes: set<Node>, new links: set<Node>, s: Tree, new k: Tree, new i: nat)
    requires old(Holds(s)) && Separate(s) && Shallow(s) && !s.borrowed && i <= |s.kids|
    requires old(allocated(k)) && old(Holds(k)) && Separate(k) && Shallow(k) && Owned(s) !! Owned(k)
    requires Reach(s) + Reach(k) <= nodes && Relinked(nodes, s.node, links)
    requires forall n | n in links :: n in Roots(s.kids) || n == k.node
    ensures HoldsAll(InsertAt(s.kids, i, k))
  {
    Foreign(s, k);
    KidsReach(k);
    hide Owned, OwnedAll, Separate, Shallow, Reach, ReachAll, Holds, HoldsAll, Relinked, InsertAt;
    KidsStill(nodes, links, s);
    StillHolds(nodes, s.node, links, k);
    HoldsInsert(s.kids, i, k);
  }

  /** A standalone tree k has become child number i of a node inside the standalone tree t. */
  twostate lemma Attached(new nodes: set<Node>, new links: set<Node>, t: Tree, new p: seq<nat>, new k: Tree, new i: nat)
    requires old(Standalone(t)) && old(allocated(k)) && old(Standalone(k)) && Owned(t) !! Owned(k)
    requires IsPath(t, p) && !At(t, p).borrowed && i <= |At(t, p).kids|
    requires Reach(t) + Reach(k) <= nodes && Relinked(nodes, At(t, p).node, links)
    requires forall n | n in links :: n in Roots(At(t, p).kids) || n == k.node
    requires Siblings(At(t, p).node, Roots(InsertAt(At(t, p).kids, i, k)))
    ensures var t' := Put(t, p, InsertAt(At(t, p).kids, i, k));
      Standalone(t') && Owned(t') == Owned(t) + Owned(k)
  {
    var s := At(t, p);
    PartOf(t, p);
    PartHeld(t, p);
    Spot(t, p);
    NodeOwned(k);
    NodeOwned(t);
    KidOwned2(t);
    KidsReach(t);
    AttachedOwned(t, p, k, i);
    hide Owned, OwnedAll, Separate, Shallow, Reach, ReachAll, Holds, Relinked, InsertAt, At, Put, IsPath, Siblings;
    AttachedKids(nodes, links, s, k, i);
    Rebuilt(nodes, s.node, links, t, p, InsertAt(s.kids, i, k));
    RootLinks(nodes, s.node, links, t);
  }

  // ---------- A child becomes a tree ----------

  lemma TakeSets(all: set<object>, part: set<object>, rest: set<object>, o: set<object>)
    requires part <= all && part == rest + o && o !! rest
    ensures rest !! all - part && all == ((all - part) + rest) + o && (all - part) + rest !! o
  {
  }

  lemma DetachedOwned(t: Tree, p: seq<nat>, i: nat)
    requires Separate(t) && Shallow(t) && IsPath(t, p) && !At(t, p).borrowed && i < |At(t, p).kids|
    ensures var t', k := Put(t, p, RemoveAt(At(t, p).kids, i)), At(t, p).kids[i];
      && Separate(t') && Shallow(t') && Separate(k) && Shallow(k)
      && Owned(t) == Owned(t') + Owned(k) && Owned(t') !! Owned(k)
  {
    var s := At(t, p);
    PartOf(t, p);
    OwnBlocksApart(s);
    OwnedRemove(s.kids, i);
    Kid(s, i);
    KidOwned2(s);
    hide Owned, OwnedAll, Separate, SeparateAll, Shallow, ShallowAll, RemoveAt, At, Put, IsPath, Reach, ReachAll;
    TakeSets(Owned(t), OwnedAll(s.kids), OwnedAll(RemoveAt(s.kids, i)), Owned(s.kids[i]));
    PutOwned(t, p, RemoveAt(s.kids, i));
  }

  lemma HoldsRemove(ts: seq<Tree>, i: nat)
    requires i < |ts| && forall j | 0 <= j < |ts| :: Holds(ts[j])
    ensures HoldsAll(RemoveAt(ts, i))
  {
    hide Holds;
  }

  /** Child number i of a node inside the standalone tree t has been taken out. */
  twostate lemma Detached(new nodes: set<Node>, new links: set<Node>, t: Tree, new p: seq<nat>, new i: nat)
    requires old(Standalone(t)) && IsPath(t, p) && !At(t, p).borrowed
    requires i < |At(t, p).kids| && Reach(t) <= nodes && Relinked(nodes, At(t, p).node, links)
    requires forall n | n in links :: n in Roots(At(t, p).kids)
    requires Siblings(At(t, p).node, Roots(RemoveAt(At(t, p).kids, i)))
    requires At(t, p).kids[i].node.next == null && At(t, p).kids[i].node.prev == null
    ensures var t', k := Put(t, p, RemoveAt(At(t, p).kids, i)), At(t, p).kids[i];
      Standalone(t') && Standalone(k) && Owned(t) == Owned(t') + Owned(k) && Owned(t') !! Owned(k)
  {
    var s := At(t, p);
    PartOf(t, p);
    PartHeld(t, p);
    Spot(t, p);
    NodeOwned(t);
    KidOwned2(t);
    KidsReach(t);
    DetachedOwned(t, p, i);
    hide Owned, OwnedAll, Separate, Shallow, Reach, ReachAll, Holds, HoldsAll, Relinked, RemoveAt, At, Put, IsPath,
      Siblings;
    KidsStill(nodes, links, s);
    HoldsRemove(s.kids, i);
    Rebuilt(nodes, s.node, links, t, p, RemoveAt(s.kids, i));
    RootLinks(nodes, s.node, links, t);
  }

  // ---------- A tree takes the place of a child ----------

  lemma SwapSets(all: set<object>, part: set<object>, o: set<object>, k: set<object>)
    requires o <= part <= all && k !! all
    ensures k !! part - o && (part - o) + k !! all - part
    ensures (all - part) + ((part - o) + k) == (all - o) + k
    ensures (all - o) + k !! o && ((all - o) + k) + o == all + k
  {
  }

  lemma SwappedOwned(t: Tree, p: seq<nat>, k: Tree, i: nat)
    requires Separate(t) && Shallow(t) && Separate(k) && Shallow(k) && Owned(t) !! Owned(k)
    requires IsPath(t, p) && !At(t, p).borrowed && i < |At(t, p).kids|
    ensures var t', o := Put(t, p, At(t, p).kids[i := k]), At(t, p).kids[i];
      && Separate(t') && Shallow(t') && Separate(o) && Shallow(o)
      && Owned(t') + Owned(o) == Owned(t) + Owned(k) && Owned(t') !! Owned(o)
  {
    var s := At(t, p);
    PartOf(t, p);
    OwnBlocksApart(s);
    OwnedMember(s.kids, i);
    Kid(s, i);
    KidsShallow(s.kids, i, k);
    KidOwned2(s);
    hide Owned, Separate, SeparateAll, Shallow, ShallowAll, At, Put, IsPath, OwnedAll, Reach, ReachAll;
    SwapSets(Owned(t), OwnedAll(s.kids), Owned(s.kids[i]), Owned(k));
    OwnedUpdate(s.kids, i, k);
    PutOwned(t, p, s.kids[i := k]);
  }

  lemma KidsShallow(ts: seq<Tree>, i: nat, k: Tree)
    requires i < |ts| && ShallowAll(ts) && Shallow(k)
    ensures ShallowAll(ts[i := k])
  {
  }

  lemma HoldsUpdate(ts: seq<Tree>, i: nat, k: Tree)
    requires i < |ts| && (forall j | 0 <= j < |ts| :: Holds(ts[j])) && Holds(k)
    ensures HoldsAll(ts[i := k])
  {
    hide Holds;
  }

  twostate lemma SwappedKids(new nodes: set<Node>, new links: set<Node>, s: Tree, new k: Tree, new i: nat)
    requires old(Holds(s)) && Separate(s) && Shallow(s) && !s.borrowed && i < |s.kids|
    requires old(allocated(k)) && old(Holds(k)) && Separate(k) && Shallow(k) && Owned(s) !! Owned(k)
    requires Reach(s) + Reach(k) <= nodes && Relinked(nodes, s.node, links)
    requires forall n | n in links :: n in Roots(s.kids) || n == k.node
    ensures HoldsAll(s.kids[i := k]) && Holds(s.kids[i])
  {
    Foreign(s, k);
    KidsReach(k);
    hide Owned, OwnedAll, Separate, Shallow, Reach, ReachAll, Holds, HoldsAll, Relinked;
    KidsStill(nodes, links, s);
    StillHolds(nodes, s.node, links, k);
    HoldsUpdate(s.kids, i, k);
  }

  /** A standalone tree k has taken the place of child number i of a node inside the standalone tree t. */
  twostate lemma Swapped(new nodes: set<Node>, new links: set<Node>, t: Tree, new p: seq<nat>, new k: Tree, new i: nat)
    requires old(Standalone(t)) && old(allocated(k)) && old(Standalone(k)) && Owned(t) !! Owned(k)
    requires IsPath(t, p) && !At(t, p).borrowed && i < |At(t, p).kids|
    requires Reach(t) + Reach(k) <= nodes && Relinked(nodes, At(t, p).node, links)
    requires forall n | n in links :: n in Roots(At(t, p).kids) || n == k.node
    requires Siblings(At(t, p).node, Roots(At(t, p).kids[i := k]))
    requires At(t, p).kids[i].node.next == null && At(t, p).kids[i].node.prev == null
    ensures var t', o := Put(t, p, At(t, p).kids[i := k]), At(t, p).kids[i];
      && Standalone(t') && Standalone(o)
      && Owned(t') + Owned(o) == Owned(t) + Owned(k) && Owned(t') !! Owned(o)
  {
    var s := At(t, p);
    PartOf(t, p);
    PartHeld(t, p);
    Spot(t, p);
    NodeOwned(k);
    NodeOwned(t);
    KidOwned2(t);
    KidsReach(t);
    SwappedOwned(t, p, k, i);
    hide Owned, OwnedAll, Separate, Shallow, Reach, ReachAll, Holds, HoldsAll, Relinked, At, Put, IsPath, Siblings;
    SwappedKids(nodes, links, s, k, i);
    Rebuilt(nodes, s.node, links, t, p, s.kids[i := k]);
    RootLinks(nodes, s.node, links, t);
  }

  lemma OwnBlocksApart(s: Tree)
    requires Separate(s) && Shallow(s)
    ensures SeparateAll(s.kids) && ShallowAll(s.kids) && OwnedAll(s.kids) <= Owned(s)
  {
  }

  twostate lemma RootLinks(new nodes: set<Node>, new parent: Node, new links: set<Node>, t: Tree)
    requires Relinked(nodes, parent, links) && t.node in nodes && t.node !in links
    ensures t.node.next == old(t.node.next) && t.node.prev == old(t.node.prev)
  {
  }

  // ---------- The program's trees ----------

  lemma TreesAllocated(trees: set<Tree>)
    ensures forall n | n in NodesOf(trees) :: allocated(n)
    ensures forall t | t in trees :: Reach(t) <= NodesOf(trees)
    ensures forall o | o in BlocksOf(trees) :: allocated(o)
  {
    forall t | t in trees
      ensures (forall n | n in Reach(t) :: allocated(n)) && (forall o | o in Owned(t) :: allocated(o))
    {
      ReachAllocated(t);
      OwnedAllocated(t);
    }
  }

  twostate predicate Same(nodes: set<Node>)
    reads nodes
  {
    forall n | n in nodes :: unchanged(n)
  }

  twostate lemma StillStand(trees: set<Tree>, new nodes: set<Node>)
    requires old(AllStand(trees))
    requires nodes == NodesOf(trees) && Same(nodes)
    ensures AllStand(trees)
  {
    forall t | t in trees ensures Standalone(t) {
      assert Reach(t) <= NodesOf(trees);
      hide Standalone, Reach, NodesOf;
      assert old(Standalone(t));
    }
  }

  lemma NodesAllocated(trees: set<Tree>)
    ensures forall n | n in NodesOf(trees) :: allocated(n)
  {
    forall t | t in trees ensures forall n | n in Reach(t) :: allocated(n) {
      ReachAllocated(t);
    }
  }

  /** A new tree joins. */
  lemma Join(trees: set<Tree>, t: Tree)
    requires AllStand(trees) && Standalone(t) && Disjoint(trees) && BlocksOf(trees) !! Owned(t)
    ensures AllStand(trees + {t}) && Disjoint(trees + {t}) && BlocksOf(trees + {t}) == BlocksOf(trees) + Owned(t)
  {
    One(t);
    assert BlocksOf({}) == {};
    hide Owned;
    Exchange(trees, {}, {t});
    assert Exchanged(trees, {}, {t}) == trees + {t};
  }

  lemma One(t: Tree)
    ensures BlocksOf({t}) == Owned(t) && Disjoint({t})
  {
  }

  lemma Two(t: Tree, u: Tree)
    ensures BlocksOf({t, u}) == Owned(t) + Owned(u)
    ensures Owned(t) !! Owned(u) ==> Disjoint({t, u})
  {
    hide Owned;
  }

  /** The forest after a standalone tree k has become child number i of a node inside the tree t. */
  twostate lemma AfterAttach(trees: set<Tree>, new nodes: set<Node>, new links: set<Node>, new t: Tree, new p: seq<nat>,
    new k: Tree, new i: nat)
    requires old(AllStand(trees)) && Disjoint(trees) && nodes == NodesOf(trees)
    requires t in trees && k in trees && t != k
    requires IsPath(t, p) && !At(t, p).borrowed && i <= |At(t, p).kids|
    requires Relinked(nodes, At(t, p).node, links)
    requires forall n | n in links :: n in Roots(At(t, p).kids) || n == k.node
    requires Siblings(At(t, p).node, Roots(InsertAt(At(t, p).kids, i, k)))
    ensures var after := Exchanged(trees, {t, k}, {Put(t, p, InsertAt(At(t, p).kids, i, k))});
      AllStand(after) && Disjoint(after) && BlocksOf(after) == BlocksOf(trees)
  {
    var t' := Put(t, p, InsertAt(At(t, p).kids, i, k));
    Pair(trees, t, k);
    SpotOwned(t, p);
    One(t');
    hide AllStand, Standalone, Owned, BlocksOf, NodesOf, Reach, At, Put, IsPath, Siblings, Relinked, InsertAt, Holds,
      Disjoint;
    Attached(nodes, links, t, p, k, i);
    Untouched(trees, {t, k}, nodes, At(t, p).node, links);
    ExchangeSame(trees, {t, k}, {t'});
  }

  twostate lemma Pair(trees: set<Tree>, new t: Tree, new k: Tree)
    requires t in trees && k in trees && t != k && old(AllStand(trees)) && Disjoint(trees)
    ensures old(allocated(t)) && old(Standalone(t)) && old(allocated(k)) && old(Standalone(k)) && Owned(t) !! Owned(k)
    ensures Reach(t) + Reach(k) <= NodesOf(trees) && Separate(t) && Shallow(t)
    ensures BlocksOf({t, k}) == Owned(t) + Owned(k) && k.node in Owned(k) && {t, k} <= trees
  {
    assert old(Standalone(t)) && old(Standalone(k));
    Members(trees, t, k);
    Two(t, k);
    NodeOwned(k);
  }

  lemma Members(trees: set<Tree>, t: Tree, k: Tree)
    requires t in trees && k in trees
    ensures {t, k} <= trees
  {
  }

  lemma ExchangeSame(trees: set<Tree>, gone: set<Tree>, come: set<Tree>)
    requires Disjoint(trees) && gone <= trees && Disjoint(come) && BlocksOf(come) == BlocksOf(gone)
    requires AllStand(trees - gone) && AllStand(come)
    ensures var after := Exchanged(trees, gone, come);
      AllStand(after) && Disjoint(after) && BlocksOf(after) == BlocksOf(trees)
  {
    assert BlocksOf(gone) <= BlocksOf(trees);
    hide BlocksOf, Owned, Disjoint, Standalone;
    Exchange(trees, gone, come);
  }

  lemma SpotOwned(t: Tree, p: seq<nat>)
    requires Separate(t) && Shallow(t) && IsPath(t, p)
    ensures At(t, p).node in Owned(t) && forall n | n in Roots(At(t, p).kids) :: n in Owned(t)
  {
    Spot(t, p);
    KidOwned2(t);
  }

  /** The forest after child number i of a node inside the tree t has been taken out. */
  twostate lemma AfterDetach(trees: set<Tree>, new nodes: set<Node>, new links: set<Node>, new t: Tree,
    new p: seq<nat>, new i: nat)
    requires old(AllStand(trees)) && Disjoint(trees) && nodes == NodesOf(trees) && t in trees
    requires IsPath(t, p) && !At(t, p).borrowed && i < |At(t, p).kids|
    requires Relinked(nodes, At(t, p).node, links)
    requires forall n | n in links :: n in Roots(At(t, p).kids)
    requires Siblings(At(t, p).node, Roots(RemoveAt(At(t, p).kids, i)))
    requires At(t, p).kids[i].node.next == null && At(t, p).kids[i].node.prev == null
    ensures var after := Exchanged(trees, {t}, {Put(t, p, RemoveAt(At(t, p).kids, i)), At(t, p).kids[i]});
      AllStand(after) && Disjoint(after) && BlocksOf(after) == BlocksOf(trees)
  {
    var t', k := Put(t, p, RemoveAt(At(t, p).kids, i)), At(t, p).kids[i];
    Single(trees, t);
    SpotOwned(t, p);
    Two(t', k);
    One(t);
    hide AllStand, Standalone, Owned, BlocksOf, NodesOf, Reach, At, Put, IsPath, Siblings, Relinked, RemoveAt, Holds,
      Disjoint;
    Detached(nodes, links, t, p, i);
    Untouched(trees, {t}, nodes, At(t, p).node, links);
    BothStand(t', k);
    ExchangeSame(trees, {t}, {t', k});
  }

  lemma BothStand(t: Tree, k: Tree)
    requires Standalone(t) && Standalone(k)
    ensures AllStand({t, k})
  {
  }

  twostate lemma Single(trees: set<Tree>, new t: Tree)
    requires t in trees && old(AllStand(trees))
    ensures old(allocated(t)) && old(Standalone(t)) && Reach(t) <= NodesOf(trees) && Separate(t) && Shallow(t)
      && {t} <= trees
  {
    assert old(Standalone(t));
  }

  /** The forest after a standalone tree k has taken the place of child number i of a node inside the tree t. */
  twostate lemma AfterSwap(trees: set<Tree>, new nodes: set<Node>, new links: set<Node>, new t: Tree, new p: seq<nat>,
    new k: Tree, new i: nat)
    requires old(AllStand(trees)) && Disjoint(trees) && nodes == NodesOf(trees)
    requires t in trees && k in trees && t != k
    requires IsPath(t, p) && !At(t, p).borrowed && i < |At(t, p).kids|
    requires Relinked(nodes, At(t, p).node, links)
    requires forall n | n in links :: n in Roots(At(t, p).kids) || n == k.node
    requires Siblings(At(t, p).node, Roots(At(t, p).kids[i := k]))
    requires At(t, p).kids[i].node.next == null && At(t, p).kids[i].node.prev == null
    ensures var after := Exchanged(trees, {t, k}, {Put(t, p, At(t, p).kids[i := k]), At(t, p).kids[i]});
      AllStand(after) && Disjoint(after) && BlocksOf(after) == BlocksOf(trees)
    ensures Put(t, p, At(t, p).kids[i := k]) != At(t, p).kids[i]
  {
    var t', o := Put(t, p, At(t, p).kids[i := k]), At(t, p).kids[i];
    Pair(trees, t, k);
    SpotOwned(t, p);
    Two(t', o);
    NodeOwned(o);
    Disjointed(t', o);
    hide AllStand, Standalone, Owned, BlocksOf, NodesOf, Reach, At, Put, IsPath, Siblings, Relinked, Holds, Disjoint;
    Swapped(nodes, links, t, p, k, i);
    Untouched(trees, {t, k}, nodes, At(t, p).node, links);
    BothStand(t', o);
    ExchangeSame(trees, {t, k}, {t', o});
  }

  lemma Disjointed(t: Tree, o: Tree)
    ensures Owned(t) !! Owned(o) ==> t != o
  {
    NodeOwned(o);
  }

  /** Linking a loose node behind the last child touches nothing else. */
  method LinkIn(parent: Node, item: Node, ghost s: Tree, ghost k: Tree, ghost nodes: set<Node>)
    requires Siblings(parent, Roots(s.kids)) && item == k.node
    requires item !in Roots(s.kids) && item.next == null && item.prev == null
    modifies parent`child, ElementSet(Roots(s.kids))`next, {item}`prev
    ensures Siblings(parent, Roots(InsertAt(s.kids, |s.kids|, k)))
    ensures Relinked(nodes, parent, ElementSet(Roots(s.kids)) + {item})
  {
    ghost var ks := Roots(s.kids);
    RootsInsert(s.kids, |s.kids|, k);
    hide Siblings, Roots, InsertAt;
    Lists.AddItemToArray(parent, item, ks);
  }

  method LinkAt(parent: Node, which: int, item: Node, ghost s: Tree, ghost k: Tree, ghost nodes: set<Node>)
    requires Siblings(parent, Roots(s.kids)) && item == k.node
    requires item !in Roots(s.kids) && item.next == null && item.prev == null
    modifies parent`child, ElementSet(Roots(s.kids))`next, ElementSet(Roots(s.kids))`prev, {item}`next, {item}`prev
    ensures Siblings(parent, Roots(InsertAt(s.kids, Position(which, |s.kids|), k)))
    ensures Relinked(nodes, parent, ElementSet(Roots(s.kids)) + {item})
  {
    ghost var ks := Roots(s.kids);
    RootsInsert(s.kids, Position(which, |s.kids|), k);
    hide Siblings, Roots, InsertAt;
    Lists.InsertItemInArray(parent, which, item, ks);
  }

  lemma RootsRemove(ts: seq<Tree>, i: nat)
    requires i < |ts|
    ensures Roots(RemoveAt(ts, i)) == RemoveAt(Roots(ts), i)
  {
  }

  lemma ElementIn(ks: seq<Node>)
    ensures forall n | n in ElementSet(ks) :: n in ks
  {
  }

  method Unlink(parent: Node, which: int, ghost s: Tree, ghost nodes: set<Node>) returns (c: Node?)
    requires Siblings(parent, Roots(s.kids))
    modifies parent`child, ElementSet(Roots(s.kids))`next, ElementSet(Roots(s.kids))`prev
    ensures var i := Position(which, |s.kids|);
      if i < |s.kids| then
        c == s.kids[i].node && c.next == null && c.prev == null && Siblings(parent, Roots(RemoveAt(s.kids, i)))
      else c == null && Same(nodes)
    ensures Relinked(nodes, parent, ElementSet(Roots(s.kids)))
    ensures Skips(parent) && forall n | n in Roots(s.kids) :: Skips(n)
  {
    ghost var i := Position(which, |s.kids|);
    if i < |s.kids| {
      RootsRemove(s.kids, i);
    }
    ghost var ks := Roots(s.kids);
    hide Siblings, Roots, RemoveAt;
    ElementIn(ks);
    c := Lists.DetachItemFromArray(parent, which, ks);
  }

  method Relink(parent: Node, which: int, item: Node, ghost s: Tree, ghost k: Tree, ghost nodes: set<Node>)
    returns (c: Node?)
    requires Siblings(parent, Roots(s.kids)) && item == k.node && item !in Roots(s.kids)
    modifies parent`child, ElementSet(Roots(s.kids))`next, ElementSet(Roots(s.kids))`prev, {item}`next, {item}`prev
    ensures var i := Position(which, |s.kids|);
      if i < |s.kids| then
        c == s.kids[i].node && c.next == null && c.prev == null && Siblings(parent, Roots(s.kids[i := k]))
      else c == null && Same(nodes)
    ensures Relinked(nodes, parent, ElementSet(Roots(s.kids)) + {item})
  {
    ghost var ks, i := Roots(s.kids), Position(which, |s.kids|);
    assert i < |s.kids| ==> Roots(s.kids[i := k]) == ks[i := item];
    hide Siblings, Roots;
    ElementIn(ks);
    c := Lists.SwapItemInArray(parent, which, item, ks);
  }

  /** A node at the end of a path in one of the trees, whose children are its own. */
  ghost predicate Within(trees: set<Tree>, t: Tree, p: seq<nat>, parent: Node) {
    t in trees && IsPath(t, p) && At(t, p).node == parent && !At(t, p).borrowed
  }

  lemma Place(trees: set<Tree>, t: Tree, p: seq<nat>, parent: Node)
    requires AllStand(trees) && Within(trees, t, p, parent)
    ensures Siblings(parent, Roots(At(t, p).kids)) && Holds(At(t, p))
  {
    assert Standalone(t);
    PartHolds(t, p);
  }

  /** A standalone tree is in no list and no part of another tree. */
  lemma Loose(trees: set<Tree>, t: Tree, p: seq<nat>, k: Tree)
    requires AllStand(trees) && Disjoint(trees) && t in trees && k in trees && t != k && IsPath(t, p)
    ensures k.node !in Roots(At(t, p).kids) && k.node.next == null && k.node.prev == null && k.node != At(t, p).node
  {
    assert Standalone(k) && Standalone(t);
    SpotOwned(t, p);
    NodeOwned(k);
  }

  lemma RootsInsert(ts: seq<Tree>, i: nat, k: Tree)
    requires i <= |ts|
    ensures Roots(InsertAt(ts, i, k)) == InsertAt(Roots(ts), i, k.node)
    ensures InsertAt(Roots(ts), |ts|, k.node) == Roots(ts) + [k.node]
  {
  }

  method Append(ghost trees: set<Tree>, parent: Node, item: Node, ghost t: Tree, ghost p: seq<nat>, ghost k: Tree)
    requires AllStand(trees) && Disjoint(trees) && Within(trees, t, p, parent) && k in trees && k != t && item == k.node
    modifies parent`child, ElementSet(Roots(At(t, p).kids))`next, item`prev
    ensures var kids := At(t, p).kids;
      var after := Exchanged(trees, {t, k}, {Put(t, p, InsertAt(kids, |kids|, k))});
      AllStand(after) && Disjoint(after) && BlocksOf(after) == BlocksOf(trees)
    ensures var ks := Roots(At(t, p).kids); Siblings(parent, InsertAt(ks, |ks|, item))
  {
    Place(trees, t, p, parent);
    Loose(trees, t, p, k);
    NodesAllocated(trees);
    hide AllStand, BlocksOf, NodesOf, At, Put, IsPath, Siblings, InsertAt, Holds, Disjoint, Roots, Relinked, Exchanged;
    ghost var s, nodes := At(t, p), NodesOf(trees);
    ghost var links := ElementSet(Roots(s.kids)) + {item};
    LinkIn(parent, item, s, k, nodes);
    RootsInsert(s.kids, |s.kids|, k);
    AfterAttach(trees, nodes, links, t, p, k, |s.kids|);
  }

  method Insert(ghost trees: set<Tree>, parent: Node, which: int, item: Node, ghost t: Tree, ghost p: seq<nat>,
    ghost k: Tree)
    requires AllStand(trees) && Disjoint(trees) && Within(trees, t, p, parent) && k in trees && k != t && item == k.node
    modifies parent`child, ElementSet(Roots(At(t, p).kids))`next, ElementSet(Roots(At(t, p).kids))`prev, item`next,
      item`prev
    ensures var kids := At(t, p).kids;
      var after := Exchanged(trees, {t, k}, {Put(t, p, InsertAt(kids, Position(which, |kids|), k))});
      AllStand(after) && Disjoint(after) && BlocksOf(after) == BlocksOf(trees)
    ensures var ks := Roots(At(t, p).kids); Siblings(parent, InsertAt(ks, Position(which, |ks|), item))
  {
    Place(trees, t, p, parent);
    Loose(trees, t, p, k);
    NodesAllocated(trees);
    hide AllStand, BlocksOf, NodesOf, At, Put, IsPath, Siblings, InsertAt, Holds, Disjoint, Roots, Relinked, Exchanged;
    ghost var s, nodes := At(t, p), NodesOf(trees);
    ghost var links := ElementSet(Roots(s.kids)) + {item};
    LinkAt(parent, which, item, s, k, nodes);
    RootsInsert(s.kids, Position(which, |s.kids|), k);
    AfterAttach(trees, nodes, links, t, p, k, Position(which, |s.kids|));
  }

  method Detach(ghost trees: set<Tree>, parent: Node, which: int, ghost t: Tree, ghost p: seq<nat>) returns (c: Node?)
    requires AllStand(trees) && Disjoint(trees) && Within(trees, t, p, parent)
    modifies parent`child, ElementSet(Roots(At(t, p).kids))`next, ElementSet(Roots(At(t, p).kids))`prev
    ensures var kids := At(t, p).kids; var i := Position(which, |kids|);
      if i < |kids| then
        var after := Exchanged(trees, {t}, {Put(t, p, RemoveAt(kids, i)), kids[i]});
        c == kids[i].node && AllStand(after) && Disjoint(after) && BlocksOf(after) == BlocksOf(trees)
      else c == null && AllStand(trees)
    ensures Skips(parent) && forall n | n in Roots(At(t, p).kids) :: Skips(n)
  {
    Place(trees, t, p, parent);
    NodesAllocated(trees);
    hide AllStand, BlocksOf, NodesOf, At, Put, IsPath, Siblings, RemoveAt, Holds, Disjoint, Roots, Relinked, Exchanged,
      Same;
    ghost var s, nodes := At(t, p), NodesOf(trees);
    ghost var links := ElementSet(Roots(s.kids));
    c := Unlink(parent, which, s, nodes);
    if c == null {
      StillStand(trees, nodes);
    } else {
      AfterDetach(trees, nodes, links, t, p, Position(which, |s.kids|));
    }
  }

  method Swap(ghost trees: set<Tree>, parent: Node, which: int, item: Node, ghost t: Tree, ghost p: seq<nat>,
    ghost k: Tree)
    returns (c: Node?)
    requires AllStand(trees) && Disjoint(trees) && Within(trees, t, p, parent) && k in trees && k != t && item == k.node
    modifies parent`child, ElementSet(Roots(At(t, p).kids))`next, ElementSet(Roots(At(t, p).kids))`prev, item`next,
      item`prev
    ensures var kids := At(t, p).kids; var i := Position(which, |kids|);
      if i < |kids| then
        var t' := Put(t, p, kids[i := k]);
        var after := Exchanged(trees, {t, k}, {t', kids[i]});
        && c == kids[i].node && t' != kids[i]
        && AllStand(after) && Disjoint(after) && BlocksOf(after) == BlocksOf(trees)
      else c == null && AllStand(trees)
  {
    Place(trees, t, p, parent);
    Loose(trees, t, p, k);
    NodesAllocated(trees);
    hide AllStand, BlocksOf, NodesOf, At, Put, IsPath, Siblings, Holds, Disjoint, Roots, Relinked, Exchanged, Same;
    ghost var s, nodes := At(t, p), NodesOf(trees);
    ghost var links := ElementSet(Roots(s.kids)) + {item};
    c := Relink(parent, which, item, s, k, nodes);
    if c == null {
      StillStand(trees, nodes);
    } else {
      AfterSwap(trees, nodes, links, t, p, k, Position(which, |s.kids|));
    }
  }

  lemma LeafStands(t: Tree)
    requires t.kids == [] && t.node.next == null && t.node.prev == null && (!t.borrowed ==> t.node.child == null)
    requires t.node.kind == t.kind && t.node.isReference == t.borrowed && t.node.name == t.name
    requires t.node.valuestring == t.text && t.node.valueint == t.whole && t.node.valuedouble == t.number
    requires t.name != null && t.text != null && !t.borrowed ==> t.name != t.text
    ensures Standalone(t) && Owned(t) == OwnBlocks(t)
  {
  }
}
