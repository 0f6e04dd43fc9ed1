/** cJSON_Delete. */
module Deleting {
  import opened Nodes

  /** The first of a chain of siblings. */
  ghost function First(ts: seq<Tree>): Node? {
    if ts == [] then null else ts[0].node
  }

  /** The next pointers lead through the trees and end behind the last. */
  ghost predicate Chained(ts: seq<Tree>)
    reads ElementSet(Roots(ts))`next
  {
    forall i | 0 <= i < |ts| :: Roots(ts)[i].next == First(ts[i + 1..])
  }

  lemma OwnedSplit(ts: seq<Tree>)
    requires ts != []
    ensures OwnedAll(ts) == Owned(ts[0]) + OwnedAll(ts[1..])
    ensures SeparateAll(ts) ==> Separate(ts[0]) && Owned(ts[0]) !! OwnedAll(ts[1..]) && SeparateAll(ts[1..])
  {
    hide Owned, Separate;
    var us := ts[1..];
    forall o | o in OwnedAll(ts) ensures o in Owned(ts[0]) + OwnedAll(us) {
      var i :| 0 <= i < |ts| && o in Owned(ts[i]);
      assert i > 0 ==> us[i - 1] == ts[i];
    }
    forall o | o in OwnedAll(us) ensures o in OwnedAll(ts) {
      var i :| 0 <= i < |us| && o in Owned(us[i]);
      assert us[i] == ts[i + 1];
    }
    if SeparateAll(ts) {
      SeparateSplit(ts);
    }
  }

  lemma SeparateSplit(ts: seq<Tree>)
    requires ts != [] && SeparateAll(ts)
    ensures Separate(ts[0]) && Owned(ts[0]) !! OwnedAll(ts[1..]) && SeparateAll(ts[1..])
  {
    hide Owned, Separate;
    var us := ts[1..];
    forall o | o in OwnedAll(us) ensures o !in Owned(ts[0]) {
      var i :| 0 <= i < |us| && o in Owned(us[i]);
      assert us[i] == ts[i + 1];
      assert Owned(ts[0]) !! Owned(ts[i + 1]);
    }
    forall i | 0 <= i < |us| ensures Separate(us[i]) {
      assert us[i] == ts[i + 1];
    }
    forall i, j | 0 <= i < j < |us| ensures Owned(us[i]) !! Owned(us[j]) {
      assert us[i] == ts[i + 1] && us[j] == ts[j + 1];
    }
  }

  lemma ChainedAt(ts: seq<Tree>, k: nat)
    requires k < |ts| && Chained(ts)
    ensures ts[k].node.next == First(ts[k + 1..])
  {
    assert Roots(ts)[k].next == First(ts[k + 1..]);
  }

  lemma NoneOwned()
    ensures OwnedAll([]) == {}
  {
  }

  lemma OwnsNode(t: Tree)
    ensures t.node in Owned(t)
  {
  }

  lemma KidsChained(t: Tree)
    requires Holds(t) && !t.borrowed
    ensures t.node.child == First(t.kids) && Chained(t.kids) && HoldsAll(t.kids)
  {
    forall i | 0 <= i < |t.kids|
      ensures Roots(t.kids)[i].next == First(t.kids[i + 1..])
    {
      SiblingsAt(t.node, Roots(t.kids), i);
    }
  }

  /** Frees a chain of items and everything they own. Every block read or freed is live at that moment, so
      nothing is freed twice or used after it is freed. */
  method Delete(heap: Heap, c0: Node?, ghost ts: seq<Tree>)
    requires c0 == First(ts) && Chained(ts) && HoldsAll(ts) && SeparateAll(ts)
    requires OwnedAll(ts) <= heap.live
    modifies heap
    ensures heap.live == old(heap.live) - OwnedAll(ts)
    decreases ts, 1
  {
    ReachAllAllocated(ts);
    ReachFacts(ts);
    ElementsAllocated(Roots(ts));
    hide Owned, OwnedAll, Holds, Separate, SeparateAll, Chained, ReachAll, BelowAll, ElementSet, Roots;
    var c := c0;
    ghost var k := 0;
    ghost var gone: set<object> := {};
    while c != null
      invariant k <= |ts| && c == First(ts[k..]) && Chained(ts) && HoldsAll(ts) && SeparateAll(ts[k..])
      invariant OwnedAll(ts) == gone + OwnedAll(ts[k..]) && gone !! OwnedAll(ts[k..])
      invariant heap.live == old(heap.live) - gone
      decreases |ts| - k
    {
      OwnedSplit(ts[k..]);
      ChainedAt(ts, k);
      assert c in heap.live by { OwnsNode(ts[k]); }
      var next := c.next;
      DeleteItem(heap, c, ts[k]);
      gone := gone + Owned(ts[k]);
      assert ts[k..][1..] == ts[k + 1..];
      c := next;
      k := k + 1;
    }
    NoneOwned();
    assert ts[k..] == [];
  }

  /** Frees one item and what it owns. */
  method DeleteItem(heap: Heap, c: Node, ghost t: Tree)
    requires t.node == c && Holds(t) && Separate(t) && Owned(t) <= heap.live
    modifies heap
    ensures heap.live == old(heap.live) - Owned(t)
    decreases t, 0
  {
    ReachAllocated(t);
    hide OwnedAll, HoldsAll, SeparateAll, Chained, ReachAll, Roots, Siblings;
    NoneOwned();
    if !t.borrowed {
      KidsChained(t);
    }
    if !c.isReference && c.child != null {
      Delete(heap, c.child, t.kids);
    }
    if !c.isReference && c.valuestring != null {
      heap.Free(c.valuestring);
    }
    if c.name != null {
      heap.Free(c.name);
    }
    heap.Free(c);
  }

  /** A tree whose root has no next sibling is a chain of its own. */
  lemma Alone(t: Tree)
    requires Holds(t) && Separate(t) && t.node.next == null
    ensures t.node == First([t]) && Chained([t]) && HoldsAll([t]) && SeparateAll([t])
    ensures OwnedAll([t]) == Owned(t)
  {
    assert [t][0] == t;
  }
}
