/** The calls of the library that build, rearrange and free trees. Between calls every live block is owned by
    exactly one node of exactly one tree, unless it has leaked. */
module Api {
  import opened Nodes
  import opened Deleting
  import opened Lists
  import opened Forests
  import opened Ownership
  import opened Pictures
  import opened Duplicating
  import opened Values

  /** A string argument: text that no allocator block holds, or a pointer into a block. */
  datatype Key = Literal(text: Chars) | Stored(block: CStr, from: nat)

  function KeyText(key: Key): Chars
    requires key.Stored? ==> key.from <= |key.block.s|
  {
    match key
    case Literal(text) => text
    case Stored(block, from) => block.s[from..]
  }

  ghost predicate Readable(key: Key, live: set<object>) {
    key.Stored? ==> key.block in live && key.from <= |key.block.s|
  }

  /** The key points to the name or into it. */
  ghost predicate Inside(key: Key, name: CStr?) {
    key.Stored? && key.block == name
  }

  /** A name may be replaced by a key if and only if the key does not lie inside it: freeing the name leaves every
      other key readable. */
  lemma ReadableAfter(key: Key, name: CStr?, live: set<object>)
    requires Readable(key, live)
    ensures Readable(key, live - if name == null then {} else {name}) <==> !Inside(key, name)
  {
  }

  class Forest {
    const heap: Heap
    ghost var trees: set<Tree>
    /** Blocks that are live and that no tree owns. */
    ghost var leaked: set<object>

    ghost predicate Valid()
      reads this, heap, NodesOf(trees)
    {
      && AllStand(trees)
      && Disjoint(trees)
      && heap.live == BlocksOf(trees) + leaked
      && BlocksOf(trees) !! leaked
    }

    constructor (heap: Heap)
      requires heap.live == {}
      ensures Valid() && this.heap == heap && trees == {} && leaked == {}
    {
      this.heap := heap;
      trees, leaked := {}, {};
    }

    /** cJSON_CreateNull, cJSON_CreateTrue, cJSON_CreateFalse, cJSON_CreateArray and cJSON_CreateObject. */
    method CreateItem(kind: Kind) returns (n: Node, ghost t: Tree)
      requires Valid()
      modifies this`trees, heap
      ensures Valid() && fresh(n) && t == Tree(n, kind, false, null, null, 0, 0.0, [])
      ensures trees == old(trees) + {t} && heap.live == old(heap.live) + Owned(t)
    {
      TreesAllocated(trees);
      hide AllStand, Standalone, Owned, BlocksOf, Disjoint, NodesOf, Reach;
      n := heap.NewNode();
      n.kind := kind;
      t := Tree(n, kind, false, null, null, 0, 0.0, []);
      LeafStands(t);
      StillStand(trees, NodesOf(trees));
      Join(trees, t);
      trees := trees + {t};
    }

    /** cJSON_CreateNumber: valueint is the number without its fraction. */
    method CreateNumber(num: real) returns (n: Node, ghost t: Tree)
      requires Valid()
      modifies this`trees, heap
      ensures Valid() && fresh(n) && t == Tree(n, KNumber, false, null, null, Truncated(num), num, [])
      ensures trees == old(trees) + {t} && heap.live == old(heap.live) + Owned(t)
    {
      TreesAllocated(trees);
      hide AllStand, Standalone, Owned, BlocksOf, Disjoint, NodesOf, Reach;
      n := heap.NewNode();
      n.kind, n.valuedouble, n.valueint := KNumber, num, Truncated(num);
      t := Tree(n, KNumber, false, null, null, Truncated(num), num, []);
      LeafStands(t);
      StillStand(trees, NodesOf(trees));
      Join(trees, t);
      trees := trees + {t};
    }

    method CreateString(s: Chars) returns (n: Node, ghost t: Tree)
      requires Valid()
      modifies this`trees, heap
      ensures Valid() && fresh(n) && t == Tree(n, KString, false, null, t.text, 0, 0.0, [])
      ensures t.text != null && fresh(t.text) && t.text.s == s
      ensures trees == old(trees) + {t} && heap.live == old(heap.live) + Owned(t)
    {
      TreesAllocated(trees);
      hide AllStand, Standalone, Owned, BlocksOf, Disjoint, NodesOf, Reach;
      n := heap.NewNode();
      n.kind := KString;
      var str := heap.NewString(s);
      n.valuestring := str;
      t := Tree(n, KString, false, null, str, 0, 0.0, []);
      LeafStands(t);
      StillStand(trees, NodesOf(trees));
      Join(trees, t);
      trees := trees + {t};
    }

    /** create_reference: all of the item's fields but its name and its place in a list. */
    method CreateReference(item: Node) returns (ref: Node, ghost t: Tree)
      requires Valid() && item in heap.live
      modifies this`trees, heap
      ensures Valid() && fresh(ref) && ref.child == item.child
      ensures t == Tree(ref, item.kind, true, null, item.valuestring, item.valueint, item.valuedouble, [])
      ensures trees == old(trees) + {t} && heap.live == old(heap.live) + {ref} == old(heap.live) + Owned(t)
      ensures forall q: Tree | old(allocated(q) && Seen(q)) ::
        Seen(q) && (q.node == item ==> Seen(ReferenceTo(q, ref)))
    {
      hide AllStand, Standalone, Owned, BlocksOf, Disjoint, NodesOf, Reach, ReachAll, Seen;
      TreesAllocated(trees);
      ref := heap.NewNode();
      ref.kind, ref.valuestring, ref.valueint, ref.valuedouble, ref.child :=
        item.kind, item.valuestring, item.valueint, item.valuedouble, item.child;
      ref.isReference := true;
      t := Tree(ref, item.kind, true, null, item.valuestring, item.valueint, item.valuedouble, []);
      LeafStands(t);
      StillStand(trees, NodesOf(trees));
      Join(trees, t);
      trees := trees + {t};
      forall q: Tree | old(allocated(q) && Seen(q)) ensures Seen(q) && (q.node == item ==> Seen(ReferenceTo(q, ref))) {
        ReachBefore(q);
        KidsReach(q);
        SeenFields(q);
        if q.node == item {
          ReferenceSeen(ref, q);
        }
      }
    }

    /** Whatever could be read before can be read still, unless it looks at the list and the item shows the list. */
    method AddItemToArray(parent: Node, item: Node?, ghost t: Tree, ghost p: seq<nat>, ghost k: Tree)
      requires Valid() && Within(trees, t, p, parent)
      requires item != null ==> k in trees && k != t && item == k.node
      modifies this`trees, parent`child, ElementSet(Roots(At(t, p).kids))`next,
        (if item == null then {} else {item})`prev
      ensures Valid() && heap.live == old(heap.live) && leaked == old(leaked)
      ensures var kids := At(t, p).kids;
        trees == if item == null then old(trees)
          else Exchanged(old(trees), {t, k}, {Put(t, p, InsertAt(kids, |kids|, k))})
      ensures item != null ==> var ks, n: Node := Roots(At(t, p).kids), item;
        && Siblings(parent, InsertAt(ks, |ks|, n))
        && forall q: Tree, s: Tree | old(allocated(q) && allocated(s) && Seen(q) && Seen(s)) && s.node == item ::
             StillReadable(q, s, parent, ks, |ks|)
    {
      hide AllStand, BlocksOf, NodesOf, At, Put, InsertAt, Disjoint, Roots, Exchanged, Seen, StillReadable,
        ReachAll, Reach, ElementSet, IsPath, Siblings;
      if item == null {
        return;
      }
      ghost var ts := trees;
      trees := Exchanged(ts, {t, k}, {Put(t, p, InsertAt(At(t, p).kids, |At(t, p).kids|, k))});
      Attach(ts, parent, item, t, p, k);
    }

    method InsertItemInArray(parent: Node, which: int, newitem: Node, ghost t: Tree, ghost p: seq<nat>, ghost k: Tree)
      requires Valid() && Within(trees, t, p, parent) && k in trees && k != t && newitem == k.node
      modifies this`trees, parent`child, ElementSet(Roots(At(t, p).kids))`next, ElementSet(Roots(At(t, p).kids))`prev,
        newitem`next, newitem`prev
      ensures Valid() && heap.live == old(heap.live) && leaked == old(leaked)
      ensures var kids := At(t, p).kids;
        trees == Exchanged(old(trees), {t, k}, {Put(t, p, InsertAt(kids, Position(which, |kids|), k))})
      ensures var ks := Roots(At(t, p).kids); var i := Position(which, |ks|);
        && (forall q: Tree, s: Tree | old(allocated(q) && allocated(s) && Seen(q) && Seen(s)) && s.node == newitem
              && newitem !in ReachAll(q.kids) + ReachAll(s.kids) :: StillReadable(q, s, parent, ks, i))
        && (forall q: Tree | old(allocated(q) && Seen(q)) && newitem !in ReachAll(q.kids)
              && !Meets(q, LinkTo(parent, ks, i), i == 0) :: Seen(q))
    {
      hide AllStand, BlocksOf, NodesOf, At, Put, InsertAt, Disjoint, Roots, Exchanged, Seen, StillReadable, Position,
        ReachAll, Reach, ElementSet, IsPath, LinkTo, Meets;
      ghost var ts := trees;
      trees := Exchanged(ts, {t, k}, {Put(t, p, InsertAt(At(t, p).kids, Position(which, |At(t, p).kids|), k))});
      PlaceAt(ts, parent, which, newitem, t, p, k);
    }

    /** A new name for a tree's root; the old name is freed before the key is read. */
    method SetName(item: Node, key: Key, ghost k: Tree) returns (ghost k': Tree)
      requires Valid() && k in trees && item == k.node
      requires Readable(key, heap.live) && !Inside(key, k.name)
      modifies this`trees, heap, item`name
      ensures Valid() && leaked == old(leaked) && trees == Exchanged(old(trees), {k}, {k'})
      ensures k' == k.(name := k'.name) && k'.name != null && fresh(k'.name)
      ensures k'.name.s == if key.Stored? then key.block.s[key.from..] else key.text
      ensures heap.live == old(heap.live) - (if k.name == null then {} else {k.name}) + {k'.name}
    {
      ghost var ts := trees;
      hide AllStand, BlocksOf, NodesOf, Disjoint, Exchanged, Owned;
      OwnsName(ts, k);
      k' := Rename(heap, ts, item, key, k);
      Renewed(BlocksOf(ts), leaked, if k.name == null then {} else {k.name}, k'.name);
      trees := Exchanged(ts, {k}, {k'});
    }

    /** The child, when there is one, becomes a tree of its own. What could be read before can be read still. */
    method DetachItemFromArray(parent: Node, which: int, ghost t: Tree, ghost p: seq<nat>) returns (c: Node?)
      requires Valid() && Within(trees, t, p, parent)
      modifies this`trees, parent`child, ElementSet(Roots(At(t, p).kids))`next, ElementSet(Roots(At(t, p).kids))`prev
      ensures Valid() && heap.live == old(heap.live) && leaked == old(leaked)
      ensures var kids := At(t, p).kids; var i := Position(which, |kids|);
        if i < |kids| then
          c == kids[i].node && trees == Exchanged(old(trees), {t}, {Put(t, p, RemoveAt(kids, i)), kids[i]})
        else c == null && trees == old(trees)
      ensures forall n: Node | old(allocated(n) && Finite(n)) :: Finite(n)
    {
      hide AllStand, BlocksOf, NodesOf, At, Put, RemoveAt, Disjoint, Roots, Exchanged, Finite;
      ghost var kids, i := At(t, p).kids, Position(which, |At(t, p).kids|);
      ghost var ts := trees;
      if i < |kids| {
        trees := Exchanged(ts, {t}, {Put(t, p, RemoveAt(kids, i)), kids[i]});
      }
      c := Detach(ts, parent, which, t, p);
      ElementIn(Roots(kids));
      forall m: Node | old(allocated(m)) ensures Skips(m) {
        assert m != parent && m !in Roots(kids) ==> m.child == old(m.child) && m.next == old(m.next);
      }
      forall n: Node | old(allocated(n) && Finite(n)) ensures Finite(n) {
        FiniteSkipping(n);
      }
    }

    /** cJSON_Delete on a whole tree: everything it owns is freed, and nothing else. */
    method DeleteTree(c: Node?, ghost k: Tree)
      requires Valid() && (c != null ==> k in trees && c == k.node)
      modifies this`trees, heap
      ensures Valid() && leaked == old(leaked)
      ensures trees == if c == null then old(trees) else Exchanged(old(trees), {k}, {})
      ensures heap.live == if c == null then old(heap.live) else old(heap.live) - Owned(k)
    {
      if c == null {
        return;
      }
      OwnedWithin(trees, k);
      hide AllStand, BlocksOf, NodesOf, Disjoint, Exchanged, Owned;
      Drop(heap, trees, c, k);
      trees := Exchanged(trees, {k}, {});
    }

    method DeleteItemFromArray(parent: Node, which: int, ghost t: Tree, ghost p: seq<nat>)
      requires Valid() && Within(trees, t, p, parent)
      modifies this`trees, heap, parent`child, ElementSet(Roots(At(t, p).kids))`next,
        ElementSet(Roots(At(t, p).kids))`prev
      ensures Valid() && leaked == old(leaked)
      ensures var kids := At(t, p).kids; var i := Position(which, |kids|);
        if i < |kids| then
          && trees == Exchanged(Exchanged(old(trees), {t}, {Put(t, p, RemoveAt(kids, i)), kids[i]}), {kids[i]}, {})
          && heap.live == old(heap.live) - Owned(kids[i])
        else trees == old(trees) && heap.live == old(heap.live)
    {
      ghost var kids, i := At(t, p).kids, Position(which, |At(t, p).kids|);
      hide AllStand, BlocksOf, NodesOf, At, Put, RemoveAt, Disjoint, Roots, Owned;
      var c := DetachItemFromArray(parent, which, t, p);
      DeleteTree(c, if c == null then t else kids[i]);
    }

    /** The old child is freed; when the index leads behind the last child nothing happens. */
    method ReplaceItemInArray(parent: Node, which: int, newitem: Node, ghost t: Tree, ghost p: seq<nat>, ghost k: Tree)
      requires Valid() && Within(trees, t, p, parent) && k in trees && k != t && newitem == k.node
      modifies this`trees, heap, parent`child, ElementSet(Roots(At(t, p).kids))`next,
        ElementSet(Roots(At(t, p).kids))`prev,
        newitem`next, newitem`prev
      ensures Valid() && leaked == old(leaked)
      ensures var kids := At(t, p).kids; var i := Position(which, |kids|);
        if i < |kids| then
          && trees == Exchanged(Exchanged(old(trees), {t, k}, {Put(t, p, kids[i := k]), kids[i]}), {kids[i]}, {})
          && heap.live == old(heap.live) - Owned(kids[i])
        else trees == old(trees) && heap.live == old(heap.live)
    {
      hide AllStand, BlocksOf, NodesOf, At, Put, Disjoint, Roots, Owned;
      ghost var kids, i := At(t, p).kids, Position(which, |At(t, p).kids|);
      var c := Swap(trees, parent, which, newitem, t, p, k);
      if c != null {
        trees := Exchanged(trees, {t, k}, {Put(t, p, kids[i := k]), kids[i]});
        DeleteTree(c, kids[i]);
      }
    }

    /** The key is copied and becomes the item's name; it must not lie inside the name the item has. */
    method AddItemToObject(owner: Node, key: Key, item: Node?, ghost t: Tree, ghost p: seq<nat>, ghost k: Tree)
      returns (ghost k': Tree)
      requires Valid() && Within(trees, t, p, owner)
      requires item != null ==> k in trees && k != t && item == k.node
      requires item != null ==> Readable(key, heap.live) && !Inside(key, k.name)
      modifies this`trees, heap, owner`child, ElementSet(Roots(At(t, p).kids))`next,
        (if item == null then {} else {item})`prev, (if item == null then {} else {item})`name
      ensures Valid() && leaked == old(leaked)
      ensures item == null ==> trees == old(trees) && heap.live == old(heap.live)
      ensures item != null ==>
        && k' == k.(name := k'.name) && k'.name != null && fresh(k'.name)
        && k'.name.s == (if key.Stored? then key.block.s[key.from..] else key.text)
        && heap.live == old(heap.live) - (if k.name == null then {} else {k.name}) + {k'.name}
        && var kids := At(t, p).kids;
           trees == Exchanged(Exchanged(old(trees), {k}, {k'}), {t, k'}, {Put(t, p, InsertAt(kids, |kids|, k'))})
      ensures item != null ==> var ks, n: Node := Roots(At(t, p).kids), item;
        && Siblings(owner, InsertAt(ks, |ks|, n))
        && forall q: Tree, s: Tree | old(allocated(q) && allocated(s) && Seen(q) && Seen(s)) && s.node == item ::
             StillReadable(q, s, owner, ks, |ks|)
    {
      hide AllStand, BlocksOf, NodesOf, At, Put, InsertAt, Disjoint, Roots, Owned, Seen, StillReadable, ReachAll, Reach,
        Siblings, ElementSet;
      k' := k;
      if item == null {
        return;
      }
      RootsDiffer(trees, t, k);
      Place(trees, t, p, owner);
      Loose(trees, t, p, k);
      k' := SetName(item, key, k);
      AddItemToArray(owner, item, t, p, k');
      ghost var ks := Roots(At(t, p).kids);
      ElementIn(ks);
      forall q: Tree, s: Tree | old(allocated(q) && allocated(s) && Seen(q) && Seen(s)) && s.node == item
        ensures StillReadable(q, s, owner, ks, |ks|)
      {
        WasChild(s);
        InsertExactly(owner, ks, |ks|, item, q, s);
      }
    }

    /** What the list gets is a new node that shows the item's contents and owns none of them. */
    method AddItemReferenceToArray(parent: Node, item: Node, ghost t: Tree, ghost p: seq<nat>) returns (ghost k: Tree)
      requires Valid() && Within(trees, t, p, parent) && item in heap.live
      modifies this`trees, heap, parent`child, ElementSet(Roots(At(t, p).kids))`next
      ensures Valid() && leaked == old(leaked) && fresh(k.node) && heap.live == old(heap.live) + {k.node}
      ensures k == Tree(k.node, old(item.kind), true, null, old(item.valuestring), old(item.valueint),
        old(item.valuedouble), [])
      ensures var kids := At(t, p).kids;
        trees == Exchanged(old(trees) + {k}, {t, k}, {Put(t, p, InsertAt(kids, |kids|, k))})
      ensures var ks := Roots(At(t, p).kids);
        forall q: Tree, s: Tree | old(allocated(q) && allocated(s) && Seen(q) && Seen(s)) && s.node == item ::
          StillReadable(q, s, parent, ks, |ks|)
    {
      hide AllStand, BlocksOf, NodesOf, At, Put, InsertAt, Disjoint, Roots, Owned, Seen, StillReadable, ReachAll, Reach,
        Siblings, ElementSet;
      Place(trees, t, p, parent);
      var ref;
      ref, k := CreateReference(item);
      AddItemToArray(parent, ref, t, p, k);
      ghost var ks := Roots(At(t, p).kids);
      ElementIn(ks);
      forall q: Tree, s: Tree | old(allocated(q) && allocated(s) && Seen(q) && Seen(s)) && s.node == item
        ensures StillReadable(q, s, parent, ks, |ks|)
      {
        WasChild(s);
        InsertExactly(parent, ks, |ks|, ref, q, s);
      }
    }

    /** The first child with that name, upper and lower case alike, becomes a tree of its own. */
    method DetachItemFromObject(owner: Node, key: CStr?, ghost t: Tree, ghost p: seq<nat>) returns (c: Node?)
      requires Valid() && Within(trees, t, p, owner)
      modifies this`trees, owner`child, ElementSet(Roots(At(t, p).kids))`next, ElementSet(Roots(At(t, p).kids))`prev
      ensures Valid() && heap.live == old(heap.live) && leaked == old(leaked)
      ensures var kids := At(t, p).kids; var i := FirstMatch(KidNames(kids), key);
        if i < |kids| then
          c == kids[i].node && trees == Exchanged(old(trees), {t}, {Put(t, p, RemoveAt(kids, i)), kids[i]})
        else c == null && trees == old(trees)
      ensures forall n: Node | old(allocated(n) && Finite(n)) :: Finite(n)
    {
      hide AllStand, BlocksOf, NodesOf, At, Put, RemoveAt, Disjoint, Roots, Siblings, FirstMatch, Finite;
      ghost var kids := At(t, p).kids;
      KidsNamed(trees, t, p, owner);
      SiblingsLead(owner, Roots(kids));
      NodesAllocated(trees);
      var i;
      c, i := FindName(owner, key, Roots(kids), KidNames(kids));
      if c != null {
        c := DetachItemFromArray(owner, i, t, p);
      }
    }

    /** The first child with that name is freed. */
    method DeleteItemFromObject(owner: Node, key: CStr?, ghost t: Tree, ghost p: seq<nat>)
      requires Valid() && Within(trees, t, p, owner)
      modifies this`trees, heap, owner`child, ElementSet(Roots(At(t, p).kids))`next,
        ElementSet(Roots(At(t, p).kids))`prev
      ensures Valid() && leaked == old(leaked)
      ensures var kids := At(t, p).kids; var i := FirstMatch(KidNames(kids), key);
        if i < |kids| then
          && trees == Exchanged(Exchanged(old(trees), {t}, {Put(t, p, RemoveAt(kids, i)), kids[i]}), {kids[i]}, {})
          && heap.live == old(heap.live) - Owned(kids[i])
        else trees == old(trees) && heap.live == old(heap.live)
    {
      ghost var kids, i := At(t, p).kids, FirstMatch(KidNames(At(t, p).kids), key);
      hide AllStand, BlocksOf, NodesOf, At, Put, RemoveAt, Disjoint, Roots, FirstMatch, Owned;
      var c := DetachItemFromObject(owner, key, t, p);
      DeleteTree(c, if c == null then t else kids[i]);
    }

    /** A reference under a name of its own. */
    method AddItemReferenceToObject(owner: Node, key: Key, item: Node, ghost t: Tree, ghost p: seq<nat>)
      returns (ghost k: Tree)
      requires Valid() && Within(trees, t, p, owner) && item in heap.live && Readable(key, heap.live)
      modifies this`trees, heap, owner`child, ElementSet(Roots(At(t, p).kids))`next
      ensures Valid() && leaked == old(leaked) && fresh(k.node) && k.name != null && fresh(k.name)
        && k.name.s == KeyText(key)
      ensures heap.live == old(heap.live) + {k.node} + {k.name}
      ensures k == Tree(k.node, old(item.kind), true, k.name, old(item.valuestring), old(item.valueint),
        old(item.valuedouble), [])
      ensures var kids, ref := At(t, p).kids, k.(name := null);
        trees == Exchanged(Exchanged(old(trees) + {ref}, {ref}, {k}), {t, k}, {Put(t, p, InsertAt(kids, |kids|, k))})
      ensures var ks := Roots(At(t, p).kids);
        forall q: Tree, s: Tree | old(allocated(q) && allocated(s) && Seen(q) && Seen(s)) && s.node == item ::
          StillReadable(q, s, owner, ks, |ks|)
    {
      hide AllStand, BlocksOf, NodesOf, At, Put, InsertAt, Disjoint, Roots, Owned, Seen, StillReadable, ReachAll, Reach,
        Siblings, ElementSet;
      Place(trees, t, p, owner);
      var node;
      ghost var ref;
      node, ref := CreateReference(item);
      k := AddItemToObject(owner, key, node, t, p, ref);
      ghost var ks := Roots(At(t, p).kids);
      ElementIn(ks);
      forall q: Tree, s: Tree | old(allocated(q) && allocated(s) && Seen(q) && Seen(s)) && s.node == item
        ensures StillReadable(q, s, owner, ks, |ks|)
      {
        WasChild(s);
        InsertExactly(owner, ks, |ks|, node, q, s);
      }
    }

    /** What cJSON_ReplaceItemInObject does to the new item's name: the old one is not freed. */
    method OverwriteName(item: Node, key: Chars, ghost k: Tree) returns (ghost k': Tree)
      requires Valid() && k in trees && item == k.node
      modifies this`trees, this`leaked, heap, item`name
      ensures Valid() && trees == Exchanged(old(trees), {k}, {k'})
      ensures k' == k.(name := k'.name) && k'.name != null && fresh(k'.name) && k'.name.s == key
      ensures heap.live == old(heap.live) + {k'.name}
      ensures leaked == old(leaked) + (if k.name == null then {} else {k.name})
    {
      hide AllStand, BlocksOf, NodesOf, Disjoint, Exchanged, Owned;
      ghost var ts := trees;
      OwnsName(ts, k);
      ghost var lost: set<object> := if k.name == null then {} else {k.name};
      k' := Cover(heap, ts, item, key, k);
      Lost(BlocksOf(ts), leaked, lost, k'.name);
      trees := Exchanged(ts, {k}, {k'});
      leaked := leaked + lost;
    }

    /** The first child with that name is replaced and freed; without one nothing happens. A name the new item
        had before is lost. */
    method ReplaceItemInObject(owner: Node, key: CStr, newitem: Node, ghost t: Tree, ghost p: seq<nat>, ghost k: Tree)
      returns (ghost k': Tree)
      requires Valid() && Within(trees, t, p, owner) && k in trees && k != t && newitem == k.node
      modifies this`trees, this`leaked, heap, owner`child,
        ElementSet(Roots(At(t, p).kids))`next, ElementSet(Roots(At(t, p).kids))`prev,
        newitem`next, newitem`prev, newitem`name
      ensures Valid()
      ensures var kids := At(t, p).kids; var i := FirstMatch(KidNames(kids), key);
        if i < |kids| then
          && k' == k.(name := k'.name) && k'.name != null && fresh(k'.name) && k'.name.s == key.s
          && trees == Exchanged(Exchanged(Exchanged(old(trees), {k}, {k'}),
                                          {t, k'}, {Put(t, p, kids[i := k']), kids[i]}),
                                {kids[i]}, {})
          && heap.live == old(heap.live) + {k'.name} - Owned(kids[i])
          && leaked == old(leaked) + (if k.name == null then {} else {k.name})
        else trees == old(trees) && heap.live == old(heap.live) && leaked == old(leaked)
    {
      hide AllStand, BlocksOf, NodesOf, At, Put, Disjoint, Roots, Siblings, FirstMatch, Owned;
      ghost var kids := At(t, p).kids;
      KidsNamed(trees, t, p, owner);
      NodesAllocated(trees);
      RootsDiffer(trees, t, k);
      var c, i := FindName(owner, key, Roots(kids), KidNames(kids));
      k' := k;
      if c != null {
        k' := OverwriteName(newitem, key.s, k);
        ReplaceItemInArray(owner, i, newitem, t, p, k');
      }
    }

    /** cJSON_Duplicate: the copy is one more tree, so whatever happens to the others leaves it alone. The item
        may be any node, and what references below it show is copied too. */
    method DuplicateItem(item: Node?, recurse: bool, ghost t: Tree) returns (c: Node?, ghost u: Tree)
      requires Valid() && (item != null ==> item == t.node && Shows(t) && RootShown(t) <= heap.live)
      requires item != null && recurse ==> Seen(t) && Shown(t) <= heap.live
      modifies this`trees, heap
      ensures Valid() && leaked == old(leaked)
      ensures item == null ==> c == null && trees == old(trees) && heap.live == old(heap.live)
      ensures item != null ==>
        && c == u.node && fresh(c) && trees == old(trees) + {u} && heap.live == old(heap.live) + Owned(u)
        && (if recurse then Copies(t, u) else CopiesRoot(t, u) && u.kids == [])
    {
      BlocksAllocated(trees);
      NodesAllocated(trees);
      hide AllStand, Owned, BlocksOf, Disjoint, NodesOf, Reach, Seen, Shown, RootShown, Shows, Copies, CopiesRoot,
        WellBuilt;
      c, u := Duplicate(heap, item, recurse, t);
      if c != null {
        Stands(u);
        Join(trees, u);
        trees := trees + {u};
      }
    }

    // ---------- What may be read ----------

    /** The picture of any node of the program shows what the node owns; all that it shows is live exactly while no
        block that it shows through a reference has been freed. */
    lemma ReadableExactly(k: Tree, p: seq<nat>, t: Tree)
      requires Valid() && k in trees && IsPath(k, p) && Seen(t) && t.node == At(k, p).node
      ensures At(k, p) == Cut(t)
      ensures Shown(t) <= heap.live <==> Borrowed(t) <= heap.live
    {
      PictureOf(k, p, t);
      ShownSplit(t);
      CutOwned(t);
      OwnedWithin(trees, k);
      hide Shown, Owned, Borrowed, BlocksOf, AllStand, Disjoint;
    }

    /** A node of the program may be read if and only if no way below it leads round in a circle and no block shown
        through a reference has been freed. */
    lemma MayBeRead(k: Tree, p: seq<nat>)
      requires Valid() && k in trees && IsPath(k, p)
      ensures var n := At(k, p).node;
        (exists t: Tree :: t.node == n && Seen(t) && Shown(t) <= heap.live) <==>
        Finite(n) && forall t: Tree | t.node == n && Seen(t) :: Borrowed(t) <= heap.live
    {
      hide AllStand, BlocksOf, NodesOf, Disjoint, Shown, Borrowed, Seen, Finite, At;
      var n := At(k, p).node;
      forall t: Tree | t.node == n && Seen(t) ensures Shown(t) <= heap.live <==> Borrowed(t) <= heap.live {
        ReadableExactly(k, p, t);
      }
      forall t: Tree, u: Tree | t.node == n && Seen(t) && u.node == n && Seen(u) ensures t == u {
        OnePicture(t, u);
      }
      SeenExactly(n);
    }

    lemma PictureOf(k: Tree, p: seq<nat>, t: Tree)
      requires Valid() && k in trees && IsPath(k, p) && Seen(t) && t.node == At(k, p).node
      ensures At(k, p) == Cut(t) && Owned(Cut(t)) <= Owned(k)
    {
      assert Standalone(k);
      PartOf(k, p);
      PartHolds(k, p);
      CutSeen(At(k, p), t);
    }

    /** Where there are no references everything may be read. */
    lemma PlainReadable(k: Tree, p: seq<nat>)
      requires Valid() && k in trees && IsPath(k, p) && Plain(At(k, p))
      ensures Seen(At(k, p)) && Shown(At(k, p)) <= heap.live
    {
      assert Standalone(k);
      PartOf(k, p);
      PartHolds(k, p);
      PlainSeen(At(k, p));
      PlainShown(At(k, p));
      OwnedWithin(trees, k);
      hide Shown, Owned, Borrowed, BlocksOf, AllStand, Disjoint, Plain, Seen;
    }

    /** Deleting another tree leaves it readable exactly when none of its references shows a block of that tree. */
    lemma SurvivesDelete(d: Tree, k: Tree, p: seq<nat>, t: Tree)
      requires Valid() && d in trees && k in trees && d != k && IsPath(k, p)
      requires Seen(t) && t.node == At(k, p).node && Shown(t) <= heap.live
      ensures Shown(t) <= heap.live - Owned(d) <==> Borrowed(t) !! Owned(d)
    {
      PictureOf(k, p, t);
      ShownSplit(t);
      CutOwned(t);
      assert Owned(k) !! Owned(d);
      hide Shown, Owned, Borrowed, BlocksOf, AllStand, Disjoint;
    }

    ghost predicate Listed(parent: Node, ks: seq<Node>)
      reads heap, parent`child, ElementSet(ks)`next
    {
      parent in heap.live && Leads(parent, ks) && forall n | n in ks :: n in heap.live
    }

    /** The children of a node of the program are there to be read. */
    lemma OwnListed(t: Tree, p: seq<nat>, parent: Node)
      requires Valid() && Within(trees, t, p, parent)
      ensures Listed(parent, Roots(At(t, p).kids))
      ensures forall n | n in Roots(At(t, p).kids) && n.name != null :: n.name in heap.live
    {
      Place(trees, t, p, parent);
      SiblingsLead(parent, Roots(At(t, p).kids));
      assert Standalone(t);
      PartOf(t, p);
      OwnedWithin(trees, t);
      KidsOwned(At(t, p));
      hide AllStand, Disjoint, BlocksOf, Owned, OwnedAll, Siblings, Separate, Shallow, Leads, Holds;
    }

    /** And so are those a readable reference shows. */
    lemma SeenListed(t: Tree)
      requires Valid() && Seen(t) && Shown(t) <= heap.live
      ensures Listed(t.node, Roots(t.kids))
      ensures forall n | n in Roots(t.kids) && n.name != null :: n.name in heap.live
    {
      ShownParts(t, heap.live);
      ShownRoots(t, heap.live);
      forall i | 0 <= i < |t.kids| ensures t.kids[i].node.name != null ==> t.kids[i].node.name in heap.live {
        ShownKid(t, i, heap.live);
        SeenFields(t.kids[i]);
      }
    }

    /** cJSON_GetArraySize: every node looked at must be live. */
    method GetArraySize(parent: Node, ghost ks: seq<Node>) returns (n: nat)
      requires Valid() && Listed(parent, ks)
      ensures n == |ks|
    {
      n := Lists.GetArraySize(parent, ks);
    }

    /** cJSON_GetArrayItem: a live child, or none. */
    method GetArrayItem(parent: Node, which: int, ghost ks: seq<Node>) returns (c: Node?)
      requires Valid() && Listed(parent, ks)
      ensures var k := Position(which, |ks|); c == if k < |ks| then ks[k] else null
      ensures c != null ==> c in heap.live
    {
      c := Lists.GetArrayItem(parent, which, ks);
    }

    /** cJSON_GetObjectItem: names and key must be live too. */
    method GetObjectItem(owner: Node, key: CStr?, ghost ks: seq<Node>, ghost names: seq<CStr?>) returns (c: Node?)
      requires Valid() && Listed(owner, ks) && Named(ks, names)
      requires (key != null ==> key in heap.live) && forall s | s in names && s != null :: s in heap.live
      ensures var k := FirstMatch(names, key); c == if k < |ks| then ks[k] else null
      ensures c != null ==> c in heap.live
    {
      c := Lists.GetObjectItem(owner, key, ks, names);
    }

    /** An array that takes a reference to itself: a sound tree of live blocks, and reading it does not come to an
        end. */
    method Tangle() returns (a: Node, ghost k: Tree)
      requires Valid()
      modifies this`trees, heap
      ensures Valid() && k in trees && a == k.node && Owned(k) <= heap.live
      ensures !Finite(a) && forall t: Tree | t.node == a :: !Seen(t)
    {
      hide AllStand, BlocksOf, NodesOf, Disjoint, Seen, Finite, Owned;
      var x;
      ghost var t, u;
      a, x, t, u := Pair();
      ShownParts(t, heap.live);
      OneChild(t, u);
      k := AddItemReferenceToArray(a, a, t, []);
      assert !Finite(t.node);
      k := Put(t, [], InsertAt(t.kids, 1, k));
      OwnedWithin(trees, k);
      forall s: Tree | s.node == a ensures !Seen(s) {
        if Seen(s) {
          SeenFinite(s);
        }
      }
    }

    /** An array with one child, and its picture. */
    method Pair() returns (a: Node, x: Node, ghost t: Tree, ghost u: Tree)
      requires Valid()
      modifies this`trees, heap
      ensures Valid() && fresh(a) && fresh(x) && a != x && t in trees && a == t.node && t.kids == [u] && x == u.node
      ensures t == Tree(a, KArray, false, null, null, 0, 0.0, [u]) && u == Tree(x, KNull, false, null, null, 0, 0.0, [])
      ensures Seen(t) && Shown(t) <= heap.live
    {
      hide AllStand, BlocksOf, NodesOf, Disjoint, Seen, Finite, Owned, Shown;
      ghost var t0;
      a, t0 := CreateItem(KArray);
      x, u := CreateItem(KNull);
      AddItemToArray(a, x, t0, [], u);
      t := Put(t0, [], InsertAt(t0.kids, 0, u));
      assert t.kids == [u];
      PlainReadable(t, []);
    }

    /** A child that comes in front of the list is not shown by a reference taken before; what the reference does
        show may be read as ever, although the first child shown is no longer the first of its list. */
    method Overtake() returns (ref: Node, ghost r: Tree)
      requires Valid()
      modifies this`trees, heap
      ensures Valid() && Seen(r) && Shown(r) <= heap.live && ref == r.node && r.borrowed
      ensures |r.kids| == 1 && ref.child == r.kids[0].node && ref.child.prev != null
    {
      hide AllStand, BlocksOf, NodesOf, Disjoint, Seen, Finite, Owned, Shown;
      var a, x, y;
      ghost var t, u, k, v;
      a, x, t, u := Pair();
      ShownParts(t, heap.live);
      ref, k := CreateReference(a);
      r := ReferenceTo(t, ref);
      ReferenceShown(ref, t, heap.live);
      ReachAllocated(r);
      KidsReach(r);
      y, v := CreateItem(KNull);
      OneChild(t, u);
      OneLeaf(r, u);
      assert Position(0, 1) == 0 && !Meets(r, LinkTo(a, [x], 0), true);
      InsertItemInArray(a, 0, y, t, [], v);
      FirstKid(r);
      Place(trees, Put(t, [], InsertAt(t.kids, 0, v)), [], a);
      SiblingsAt(a, Roots(Put(t, [], InsertAt(t.kids, 0, v)).kids), 1);
    }

    /** A reference to a string that is then deleted shows freed memory. */
    method Dangle(s: Chars) returns (ref: Node, ghost r: Tree)
      requires Valid()
      modifies this`trees, heap
      ensures Valid() && r in trees && ref == r.node && Typed(r) && Seen(r)
      ensures !(Shown(r) <= heap.live)
    {
      var item;
      ghost var t;
      item, t := CreateString(s);
      hide AllStand, BlocksOf, NodesOf, Disjoint;
      NoChild(t);
      OwnsText(t);
      hide Exchanged, Owned, Holds;
      ref, r := CreateReference(item);
      StillIn(old(trees), t, r);
      DeleteTree(item, t);
      StillThere(old(trees) + {t} + {r}, t, r);
      ShowsThrough(r);
    }

    lemma NoChild(t: Tree)
      requires Valid() && t in trees && t.kids == [] && !t.borrowed
      ensures t.node.child == null
    {
      assert Standalone(t) && Siblings(t.node, Roots(t.kids));
    }

    lemma ShowsThrough(r: Tree)
      requires Valid() && r in trees && r.kids == [] && r.node.child == null
      ensures Seen(r)
    {
      assert Standalone(r) && Holds(r);
    }

    /** When no tree is left, only what has leaked is live. */
    lemma Emptied()
      requires Valid() && trees == {}
      ensures heap.live == leaked
    {
      assert BlocksOf({}) == {};
    }

    /** Deleting one tree frees nothing of another, whatever references lead from the one to the other. */
    lemma Spared(k: Tree, t: Tree)
      requires Valid() && k in trees && t in trees && k != t
      ensures Owned(t) <= heap.live - Owned(k)
    {
    }
  }

  /** Linking a tree behind the children of a node: what happens to the trees, and to what can be read. */
  method Attach(ghost trees: set<Tree>, parent: Node, item: Node, ghost t: Tree, ghost p: seq<nat>, ghost k: Tree)
    requires AllStand(trees) && Disjoint(trees) && Within(trees, t, p, parent) && k in trees && k != t && item == k.node
    modifies parent`child, ElementSet(Roots(At(t, p).kids))`next, item`prev
    ensures var kids := At(t, p).kids;
      var after := Exchanged(trees, {t, k}, {Put(t, p, InsertAt(kids, |kids|, k))});
      AllStand(after) && Disjoint(after) && BlocksOf(after) == BlocksOf(trees)
    ensures var ks := Roots(At(t, p).kids);
      && Siblings(parent, InsertAt(ks, |ks|, item))
      && forall q: Tree, s: Tree | old(allocated(q) && allocated(s) && Seen(q) && Seen(s)) && s.node == item ::
           StillReadable(q, s, parent, ks, |ks|)
  {
    hide AllStand, BlocksOf, NodesOf, At, Put, InsertAt, Disjoint, Roots, Exchanged, Siblings, Seen, StillReadable,
      IsPath, ReachAll, Reach, ElementSet;
    Place(trees, t, p, parent);
    Loose(trees, t, p, k);
    Append(trees, parent, item, t, p, k);
    ghost var ks := Roots(At(t, p).kids);
    ElementIn(ks);
    forall q: Tree, s: Tree | old(allocated(q) && allocated(s) && Seen(q) && Seen(s)) && s.node == item
      ensures StillReadable(q, s, parent, ks, |ks|)
    {
      WasChild(s);
      InsertExactly(parent, ks, |ks|, item, q, s);
    }
  }

  /** The same for a tree that takes a place among the children. */
  method PlaceAt(ghost trees: set<Tree>, parent: Node, which: int, item: Node, ghost t: Tree, ghost p: seq<nat>,
    ghost k: Tree)
    requires AllStand(trees) && Disjoint(trees) && Within(trees, t, p, parent) && k in trees && k != t && item == k.node
    modifies parent`child, ElementSet(Roots(At(t, p).kids))`next, ElementSet(Roots(At(t, p).kids))`prev, item`next,
      item`prev
    ensures var kids := At(t, p).kids;
      var after := Exchanged(trees, {t, k}, {Put(t, p, InsertAt(kids, Position(which, |kids|), k))});
      AllStand(after) && Disjoint(after) && BlocksOf(after) == BlocksOf(trees)
    ensures var ks := Roots(At(t, p).kids); var i := Position(which, |ks|);
      && (forall q: Tree, s: Tree | old(allocated(q) && allocated(s) && Seen(q) && Seen(s)) && s.node == item
            && item !in ReachAll(q.kids) + ReachAll(s.kids) :: StillReadable(q, s, parent, ks, i))
      && (forall q: Tree | old(allocated(q) && Seen(q)) && item !in ReachAll(q.kids)
            && !Meets(q, LinkTo(parent, ks, i), i == 0) :: Seen(q))
  {
    hide AllStand, BlocksOf, NodesOf, At, Put, InsertAt, Disjoint, Roots, Exchanged, Siblings, Seen, StillReadable,
      IsPath, ReachAll, Reach, ElementSet, Position, LinkTo, Meets;
    Place(trees, t, p, parent);
    Loose(trees, t, p, k);
    Insert(trees, parent, which, item, t, p, k);
    ghost var ks := Roots(At(t, p).kids);
    ghost var i := Position(which, |ks|);
    ElementIn(ks);
    forall q: Tree, s: Tree | old(allocated(q) && allocated(s) && Seen(q) && Seen(s)) && s.node == item
        && item !in ReachAll(q.kids) + ReachAll(s.kids)
      ensures StillReadable(q, s, parent, ks, i)
    {
      WasChild(s);
      InsertExactly(parent, ks, i, item, q, s);
    }
    forall q: Tree | old(allocated(q) && Seen(q)) && item !in ReachAll(q.kids)
      && !Meets(q, LinkTo(parent, ks, i), i == 0)
      ensures Seen(q)
    {
      InsertLinks(Reach(q), ReachAll(q.kids), parent, ks, i, item);
      UnmetSeen(Reach(q), ReachAll(q.kids), LinkTo(parent, ks, i), i == 0, item, if i < |ks| then ks[i] else null, q);
    }
  }

  lemma OneLeaf(t: Tree, u: Tree)
    requires t.kids == [u] && u.kids == []
    ensures ReachAll(t.kids) == {u.node}
  {
    assert Reach(t.kids[0]) == {u.node};
  }

  lemma OneChild(t: Tree, u: Tree)
    requires t.kids == [u]
    ensures Roots(At(t, []).kids) == [u.node] && LinkTo(t.node, [u.node], 1) == u.node && u.node in ReachAll(t.kids)
    ensures Meets(t, u.node, false) && At(t, []) == t
  {
    assert u.node in Reach(t.kids[0]);
  }

  lemma KidsOwned(s: Tree)
    requires Holds(s) && !s.borrowed
    ensures forall n | n in Roots(s.kids) :: n in Owned(s) && (n.name != null ==> n.name in Owned(s))
  {
    forall i | 0 <= i < |s.kids|
      ensures s.kids[i].node in Owned(s) && (s.kids[i].node.name != null ==> s.kids[i].node.name in Owned(s))
    {
      assert Holds(s.kids[i]);
      assert Owned(s.kids[i]) <= OwnedAll(s.kids);
      NodeOwned(s.kids[i]);
    }
  }

  lemma OwnsText(t: Tree)
    requires !t.borrowed && t.text != null
    ensures t.text in Owned(t)
  {
  }

  lemma StillIn(trees: set<Tree>, t: Tree, r: Tree)
    ensures t in trees + {t} + {r} && r in trees + {t} + {r}
  {
  }

  lemma StillThere(trees: set<Tree>, t: Tree, r: Tree)
    requires r in trees && r != t
    ensures r in Exchanged(trees, {t}, {})
  {
  }

  lemma {:induction false} PlainShallow(t: Tree)
    requires Plain(t)
    ensures Shallow(t)
  {
    forall i | 0 <= i < |t.kids| ensures Shallow(t.kids[i]) {
      PlainShallow(t.kids[i]);
    }
  }

  lemma Stands(t: Tree)
    requires WellBuilt(t) && t.node.next == null && t.node.prev == null
    ensures Standalone(t)
  {
    PlainShallow(t);
  }

  lemma RootsDiffer(trees: set<Tree>, t: Tree, k: Tree)
    requires Disjoint(trees) && t in trees && k in trees && t != k
    ensures t.node != k.node
  {
    NodeOwned(t);
    NodeOwned(k);
  }

  ghost function KidNames(ts: seq<Tree>): (names: seq<CStr?>)
    ensures |names| == |ts| && forall i | 0 <= i < |ts| :: names[i] == ts[i].name
  {
    seq(|ts|, i requires 0 <= i < |ts| => ts[i].name)
  }

  lemma KidsNamed(trees: set<Tree>, t: Tree, p: seq<nat>, owner: Node)
    requires AllStand(trees) && Within(trees, t, p, owner)
    ensures Siblings(owner, Roots(At(t, p).kids)) && Named(Roots(At(t, p).kids), KidNames(At(t, p).kids))
  {
    Place(trees, t, p, owner);
    var s := At(t, p);
    forall i | 0 <= i < |s.kids| ensures Roots(s.kids)[i].name == KidNames(s.kids)[i] {
      assert Holds(s.kids[i]);
    }
  }

  lemma OwnsName(trees: set<Tree>, k: Tree)
    requires k in trees && AllStand(trees)
    ensures k.node.name == k.name && (k.name != null ==> k.name in BlocksOf(trees))
  {
    assert Standalone(k);
    assert k.name != null ==> k.name in Owned(k);
  }

  twostate predicate OnlyRenamed(new nodes: set<Node>, new item: Node)
    reads nodes
  {
    forall n | n in nodes && old(allocated(n)) ::
      && n.next == old(n.next) && n.prev == old(n.prev) && n.child == old(n.child) && n.kind == old(n.kind)
      && n.isReference == old(n.isReference) && n.valuestring == old(n.valuestring)
      && n.valueint == old(n.valueint) && n.valuedouble == old(n.valuedouble)
      && (n != item ==> n.name == old(n.name))
  }

  method CoverName(heap: Heap, item: Node, key: Chars, ghost nodes: set<Node>)
    modifies heap, item`name
    ensures item.name != null && fresh(item.name) && item.name.s == key && OnlyRenamed(nodes, item)
    ensures heap.live == old(heap.live) + {item.name}
  {
    item.name := heap.NewString(key);
  }

  twostate lemma Unnamed(new nodes: set<Node>, new item: Node, t: Tree)
    requires OnlyRenamed(nodes, item) && Reach(t) <= nodes && item !in Reach(t)
    ensures old(Holds(t)) ==> Holds(t)
    ensures old(Standalone(t)) ==> Standalone(t)
  {
    KidsReach(t);
    ReachBefore(t);
    hide Holds, Standalone, Reach, ReachAll;
    forall n | n in Reach(t)
      ensures n.kind == old(n.kind) && n.isReference == old(n.isReference) && n.name == old(n.name)
      ensures n.valuestring == old(n.valuestring) && n.valueint == old(n.valueint)
        && n.valuedouble == old(n.valuedouble)
      ensures n.child == old(n.child) && n.next == old(n.next) && n.prev == old(n.prev)
    {
      assert n in nodes;
    }
    hide OnlyRenamed;
  }

  lemma RenamedOwned(k: Tree, k': Tree)
    requires Separate(k) && Shallow(k) && k' == k.(name := k'.name) && k'.name != null && k'.name !in Owned(k)
    requires k'.name != k.text || k.borrowed
    ensures Separate(k') && Shallow(k')
    ensures Owned(k') == Owned(k) - (if k.name == null then {} else {k.name}) + {k'.name}
  {
  }

  /** The forest after the root of k has been given a new name. */
  twostate lemma Renamed(trees: set<Tree>, new nodes: set<Node>, new k: Tree, new k': Tree)
    requires old(AllStand(trees)) && Disjoint(trees) && k in trees && nodes == NodesOf(trees)
    requires k' == k.(name := k'.name) && k'.name != null && k'.name !in BlocksOf(trees) && k.node.name == k'.name
    requires OnlyRenamed(nodes, k.node)
    ensures var after := Exchanged(trees, {k}, {k'});
      && AllStand(after) && Disjoint(after)
      && BlocksOf(after) == BlocksOf(trees) - (if k.name == null then {} else {k.name}) + {k'.name}
  {
    Single(trees, k);
    hide AllStand, Owned, Standalone, Disjoint, Reach, BlocksOf, NodesOf, OnlyRenamed, Exchanged;
    RenamedBlocks(trees, k, k');
    RenamedRoot(nodes, k, k');
    RenamedOthers(trees, nodes, k);
    RestStands(trees, k, k');
  }

  lemma RenamedBlocks(trees: set<Tree>, k: Tree, k': Tree)
    requires Disjoint(trees) && k in trees && Separate(k) && Shallow(k)
    requires k' == k.(name := k'.name) && k'.name != null && k'.name !in BlocksOf(trees)
    ensures Separate(k') && Shallow(k')
    ensures var after := Exchanged(trees, {k}, {k'});
      && Disjoint(after)
      && BlocksOf(after) == BlocksOf(trees) - (if k.name == null then {} else {k.name}) + {k'.name}
  {
    hide Owned, Separate, Shallow, Disjoint, BlocksOf;
    OwnedWithin(trees, k);
    RenamedOwned(k, k');
    One(k);
    One(k');
    Exchange(trees, {k}, {k'});
  }

  twostate lemma RenamedOthers(trees: set<Tree>, new nodes: set<Node>, new k: Tree)
    requires old(AllStand(trees)) && Disjoint(trees) && k in trees && nodes == NodesOf(trees)
    requires OnlyRenamed(nodes, k.node)
    ensures AllStand(trees - {k})
  {
    hide Owned, Separate, Standalone, Disjoint, Reach, OnlyRenamed, NodesOf;
    forall u | u in trees - {k} ensures Standalone(u) {
      Single(trees, u);
      Elsewhere(trees, k, u);
      Unnamed(nodes, k.node, u);
    }
  }

  lemma RestStands(trees: set<Tree>, k: Tree, k': Tree)
    requires Standalone(k') && AllStand(trees - {k})
    ensures AllStand(Exchanged(trees, {k}, {k'}))
  {
  }

  lemma OwnedWithin(trees: set<Tree>, k: Tree)
    requires k in trees
    ensures Owned(k) <= BlocksOf(trees) && (k.text != null && !k.borrowed ==> k.text in Owned(k))
    ensures k.name != null ==> k.name in Owned(k)
  {
  }

  /** The root of one tree is out of another tree's reach. */
  lemma Elsewhere(trees: set<Tree>, k: Tree, u: Tree)
    requires Disjoint(trees) && k in trees && u in trees && u != k && Shallow(u)
    ensures k.node !in Reach(u) && Reach(u) <= NodesOf(trees)
  {
    NodeOwned(k);
    ShallowReach(u);
  }

  twostate lemma RenamedRoot(new nodes: set<Node>, k: Tree, new k': Tree)
    requires old(Standalone(k)) && Reach(k) <= nodes && OnlyRenamed(nodes, k.node)
    requires k' == k.(name := k'.name) && k.node.name == k'.name && Separate(k') && Shallow(k')
    ensures Standalone(k')
  {
    assert Separate(k) && Shallow(k) && old(Holds(k));
    KidsReach(k);
    if !k.borrowed {
      RenamedKids(nodes, k);
    }
    hide Siblings, HoldsAll, Roots, Reach, ReachAll;
  }

  twostate lemma RenamedKids(new nodes: set<Node>, k: Tree)
    requires old(Holds(k)) && Separate(k) && Shallow(k) && !k.borrowed
    requires Reach(k) <= nodes && OnlyRenamed(nodes, k.node)
    ensures Siblings(k.node, Roots(k.kids)) && HoldsAll(k.kids)
  {
    KidsReach(k);
    HoldsParts(k);
    RootsReached(k);
    ReachBefore(k);
    hide Holds, Separate, Shallow, Reach, ReachAll, OnlyRenamed, Siblings, Roots;
    forall i | 0 <= i < |k.kids| ensures Holds(k.kids[i]) {
      KidBelow(k, i);
      Unnamed(nodes, k.node, k.kids[i]);
    }
    SameSiblings(nodes, k);
  }

  twostate lemma SameSiblings(new nodes: set<Node>, k: Tree)
    requires OnlyRenamed(nodes, k.node) && k.node in nodes
    requires forall n | n in ElementSet(Roots(k.kids)) :: n in nodes && old(allocated(n))
    requires old(Siblings(k.node, Roots(k.kids)))
    ensures Siblings(k.node, Roots(k.kids))
  {
    forall i | 0 <= i < |k.kids|
      ensures k.kids[i].node.next == old(k.kids[i].node.next) && k.kids[i].node.prev == old(k.kids[i].node.prev)
    {
      assert Roots(k.kids)[i] in ElementSet(Roots(k.kids));
    }
  }

  lemma RootsReached(k: Tree)
    ensures forall n | n in ElementSet(Roots(k.kids)) :: n in Reach(k)
  {
    forall i | 0 <= i < |k.kids| ensures k.kids[i].node in Reach(k) {
      KidsReach(k.kids[i]);
      OwnedMember(k.kids, i);
      KidsReach(k);
    }
  }

  /** A copy of the key becomes the name of the root of k. */
  method Cover(heap: Heap, ghost trees: set<Tree>, item: Node, key: Chars, ghost k: Tree) returns (ghost k': Tree)
    requires AllStand(trees) && Disjoint(trees) && k in trees && item == k.node
    modifies heap, item`name
    ensures k' == k.(name := k'.name) && k'.name != null && fresh(k'.name) && k'.name.s == key
    ensures heap.live == old(heap.live) + {k'.name}
    ensures var after := Exchanged(trees, {k}, {k'});
      && AllStand(after) && Disjoint(after)
      && BlocksOf(after) == BlocksOf(trees) - (if k.name == null then {} else {k.name}) + {k'.name}
  {
    ghost var nodes := NodesOf(trees);
    NodesAllocated(trees);
    BlocksAllocated(trees);
    hide AllStand, BlocksOf, NodesOf, Disjoint, Exchanged, Owned, OnlyRenamed;
    CoverName(heap, item, key, nodes);
    k' := k.(name := item.name);
    Renamed(trees, nodes, k, k');
  }

  /** The same, and the old name is freed. */
  method Rename(heap: Heap, ghost trees: set<Tree>, item: Node, key: Key, ghost k: Tree) returns (ghost k': Tree)
    requires AllStand(trees) && Disjoint(trees) && k in trees && item == k.node
    requires item.name == k.name && (k.name != null ==> k.name in heap.live)
    requires Readable(key, heap.live) && !Inside(key, k.name)
    modifies heap, item`name
    ensures k' == k.(name := k'.name) && k'.name != null && fresh(k'.name) && k'.name.s == KeyText(key)
    ensures heap.live == old(heap.live) - (if k.name == null then {} else {k.name}) + {k'.name}
    ensures var after := Exchanged(trees, {k}, {k'});
      && AllStand(after) && Disjoint(after)
      && BlocksOf(after) == BlocksOf(trees) - (if k.name == null then {} else {k.name}) + {k'.name}
  {
    NodesAllocated(trees);
    hide AllStand, BlocksOf, NodesOf, Disjoint, Exchanged;
    if item.name != null {
      heap.Free(item.name);
    }
    ReadableAfter(key, k.name, old(heap.live));
    assert Readable(key, heap.live);
    k' := Cover(heap, trees, item, KeyText(key), k);
  }

  lemma Renewed(blocks: set<object>, leaked: set<object>, gone: set<object>, o: object)
    requires blocks !! leaked && gone <= blocks && o !in blocks + leaked
    ensures blocks + leaked - gone + {o} == (blocks - gone + {o}) + leaked && blocks - gone + {o} !! leaked
  {
  }

  lemma Lost(blocks: set<object>, leaked: set<object>, lost: set<object>, o: object)
    requires blocks !! leaked && lost <= blocks && o !in blocks + leaked
    ensures blocks + leaked + {o} == (blocks - lost + {o}) + (leaked + lost)
    ensures blocks - lost + {o} !! leaked + lost
  {
  }

  lemma BlocksAllocated(trees: set<Tree>)
    ensures forall o | o in BlocksOf(trees) :: allocated(o)
  {
    forall t | t in trees ensures forall o | o in Owned(t) :: allocated(o) {
      OwnedAllocated(t);
    }
  }

  /** Frees one whole tree. */
  method Drop(heap: Heap, ghost trees: set<Tree>, c: Node, ghost k: Tree)
    requires AllStand(trees) && Disjoint(trees) && k in trees && c == k.node && Owned(k) <= heap.live
    modifies heap
    ensures heap.live == old(heap.live) - Owned(k)
    ensures var after := Exchanged(trees, {k}, {});
      AllStand(after) && Disjoint(after) && BlocksOf(after) == BlocksOf(trees) - Owned(k)
  {
    assert Standalone(k);
    Alone(k);
    NodesAllocated(trees);
    hide AllStand, Standalone, Holds, BlocksOf, NodesOf, Disjoint, Owned, OwnedAll, HoldsAll, SeparateAll, Chained;
    Delete(heap, c, [k]);
    Leave(trees, k);
  }

  lemma Leave(trees: set<Tree>, k: Tree)
    requires AllStand(trees) && Disjoint(trees) && k in trees
    ensures var after := Exchanged(trees, {k}, {});
      AllStand(after) && Disjoint(after) && BlocksOf(after) == BlocksOf(trees) - Owned(k) && Owned(k) <= BlocksOf(trees)
  {
    One(k);
    assert BlocksOf({}) == {};
    hide Owned;
    Exchange(trees, {k}, {});
  }
}
