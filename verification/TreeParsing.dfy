/** parse_value, parse_array, parse_object and cJSON_ParseWithOpts building nodes in memory. */
module TreeParsing {
  import opened Bytes
  import opened Values
  import opened Syntax
  import P = Parsing
  import opened ParsingTheorems
  import opened ParseLoops
  import opened Nodes
  import opened Deleting
  import opened Building
  import opened Scanning
  import opened StringScanning

  /** The static error pointer. */
  datatype ErrorPtr = NoError | ErrorAt(at: nat)

  /** How a parser function answers: success leaves the error pointer alone, failure sets it. */
  predicate Answers<T>(r: P.Parsed<T>, ok: bool, end: nat, ep: ErrorPtr, ep0: ErrorPtr) {
    match r
    case Ok(_, e) => ok && end == e && ep == ep0
    case Fail(at) => !ok && ep == ErrorAt(at)
    case BadEscape => true
  }

  /** A node whose value has not been set. */
  ghost predicate Unset(item: Node)
    reads item`child, item`valuestring, item`isReference
  {
    item.child == null && item.valuestring == null && !item.isReference
  }

  /** How the loop over the elements answers; the values are those of the children in t. */
  ghost predicate Read(r: P.Parsed<seq<Json>>, ok: bool, end: nat, t: Tree, ep: ErrorPtr, ep0: ErrorPtr) {
    match r
    case Ok(vals, e) => ok && end == e && ep == ep0 && TypedItems(t.kids) && ItemValues(t.kids) == vals
    case Fail(at) => !ok && ep == ErrorAt(at)
    case BadEscape => true
  }

  ghost predicate ReadPairs(r: P.Parsed<seq<Member>>, ok: bool, end: nat, t: Tree, ep: ErrorPtr, ep0: ErrorPtr) {
    match r
    case Ok(vals, e) => ok && end == e && ep == ep0 && TypedMembers(t.kids) && MemberValues(t.kids) == vals
    case Fail(at) => !ok && ep == ErrorAt(at)
    case BadEscape => true
  }

  /** The engine: the allocator and the error pointer, which are globals of the library. */
  class Parser {
    const heap: Heap
    var ep: ErrorPtr

    constructor (heap: Heap)
      ensures this.heap == heap && ep == NoError
    {
      this.heap := heap;
      ep := NoError;
    }

    method ParseString(item: Node, z: CString, i: nat) returns (ok: bool, end: nat)
      requires i < |z| && !P.LexString(z, i).BadEscape? && item.valuestring == null
      modifies heap, `ep, item`valuestring, item`kind
      ensures Answers(P.LexString(z, i), ok, end, ep, old(ep))
      ensures ok ==>
        && item.valuestring != null && fresh(item.valuestring)
        && item.valuestring.s == Decoded(P.LexString(z, i).value.0)
        && item.kind == KString
        && heap.live == old(heap.live) + {item.valuestring}
      ensures !ok ==> item.valuestring == null && item.kind == old(item.kind) && heap.live == old(heap.live)
    {
      if z[i] != QUOTE {
        ep := ErrorAt(i);
        return false, i;
      }
      ghost var l := P.LexLit(z, i + 1).lit;
      LitSound(z, i + 1);
      DecodedNulFree(l);
      var len := CountLiteral(z, i + 1);
      var out := new byte[len + 1];
      var n, ptr := DecodeLiteral(z, i + 1, out);
      var str := heap.NewString(out[..n]);
      item.valuestring := str;
      item.kind := KString;
      if z[ptr] == QUOTE {
        ptr := ptr + 1;
      }
      return true, ptr;
    }

    /** One array element: a new node linked behind the last, its value, and the white space after it. */
    method ParseElement(item: Node, last: Node?, z: CString, from: nat, ghost kids: seq<Tree>)
      returns (ok: bool, value: nat, child: Node, ghost t: Tree)
      requires from < |z| && !P.ParseValue(z, P.Skip(z, from)).BadEscape?
      requires Siblings(item, Roots(kids)) && Growing(item, kids)
      requires last == if kids == [] then null else kids[|kids| - 1].node
      modifies heap, `ep, item`child, (if last == null then {} else {last})`next
      ensures t.node == child && Siblings(item, Roots(kids + [t])) && Growing(item, kids + [t])
      ensures fresh(child) && fresh(Reach(t)) && fresh(Owned(t)) && heap.live == old(heap.live) + Owned(t)
      ensures match P.ParseValue(z, P.Skip(z, from))
        case Ok(c, e) => ok && value == P.Skip(z, e) && ep == old(ep) && Typed(t) && Value(t) == Meaning(c)
        case Fail(at) => !ok && ep == ErrorAt(at)
        case BadEscape => true
      decreases |z| - from, 3
    {
      OwnedAllAllocated(kids);
      ReachAllAllocated(kids);
      ReachFacts(kids);
      hide P.ParseValue, P.Skip, Siblings, Growing, Meaning, Value, Typed, Holds, Reach, ReachAll, Owned, OwnedAll,
        WellBuilt, ElementSet;
      child := AddChild(heap, item, last, kids);
      ElementsAllocated(Roots(kids) + [child]);
      value := SkipBlanks(z, from);
      ok, value, t := ParseValue(child, z, value);
      GrowChild(item, kids, t, child);
      ElementsAllocated(Roots(kids + [t]));
      ReachAllAllocated(kids + [t]);
      ReachFacts(kids + [t]);
      if ok {
        value := SkipBlanks(z, value);
      }
    }

    /** The next element of the array whose tree so far is t. */
    method AppendElement(ghost t: Tree, item: Node, last: Node?, z: CString, from: nat)
      returns (ok: bool, value: nat, child: Node, ghost t': Tree, ghost k: Tree)
      requires from < |z| && !P.ParseValue(z, P.Skip(z, from)).BadEscape?
      requires WellBuilt(t) && t.node == item && t.text == null
      requires last == if t.kids == [] then null else t.kids[|t.kids| - 1].node
      modifies heap, `ep, item`child, (if last == null then {} else {last})`next
      ensures WellBuilt(t') && t' == t.(kids := t.kids + [k]) && child == k.node && fresh(child)
      ensures Inner(t') == Inner(t) + Owned(k) && ReachAll(t'.kids) == ReachAll(t.kids) + Reach(k)
      ensures fresh(Reach(k)) && fresh(Owned(k)) && heap.live == old(heap.live) + Owned(k)
      ensures match P.ParseValue(z, P.Skip(z, from))
        case Ok(c, e) =>
          && ok && value == P.Skip(z, e) && ep == old(ep)
          && (TypedItems(t.kids) ==> TypedItems(t'.kids) && ItemValues(t'.kids) == ItemValues(t.kids) + [Meaning(c)])
        case Fail(at) => !ok && ep == ErrorAt(at)
        case BadEscape => true
      decreases |z| - from, 4
    {
      hide P.ParseValue, P.Skip, Siblings, Growing, Meaning, Value, Typed, Holds, Reach, ReachAll, Owned, OwnedAll,
        WellBuilt, ElementSet, ItemValues, TypedItems, Inner, Roots;
      Reopened(t);
      OwnedAllAllocated(t.kids);
      ok, value, child, k := ParseElement(item, last, z, from, t.kids);
      t' := t.(kids := t.kids + [k]);
      Appended(t, k, t');
    }

    /** The loop over the commas, from the index a behind an element on. */
    method MoreElements(ghost t0: Tree, item: Node, last: Node, z: CString, a: nat)
      returns (ok: bool, value: nat, ghost t: Tree, ghost got: set<object>, ghost nodes: set<Node>)
      requires a < |z| && TypedItems(t0.kids) && !AfterElem(z, a, ItemValues(t0.kids)).BadEscape?
      requires WellBuilt(t0) && t0.node == item && t0.text == null
      requires t0.kids != [] && last == t0.kids[|t0.kids| - 1].node
      modifies heap, `ep, item`child, last`next
      ensures WellBuilt(t) && t == t0.(kids := t.kids)
      ensures Inner(t) == Inner(t0) + got && ReachAll(t.kids) == ReachAll(t0.kids) + nodes
      ensures fresh(got) && fresh(nodes) && heap.live == old(heap.live) + got
      ensures Read(AfterElem(z, a, ItemValues(t0.kids)), ok, value, t, ep, old(ep))
      decreases |z| - a, 5
    {
      hide P.ParseValue, P.Skip, P.ParseElems, Siblings, Growing, Meaning, Value, Typed, Holds, Reach, ReachAll,
        Owned, OwnedAll, WellBuilt, Inner, ElementSet, Items, ItemValues, TypedItems, Collected, AfterElem;
      ghost var k;
      value, t := a, t0;
      var child := last;
      got, nodes := {}, {};
      while z[value] == COMMA
        invariant value < |z| && t == t0.(kids := t.kids) && WellBuilt(t)
        invariant t.kids != [] && child == t.kids[|t.kids| - 1].node && (child == last || fresh(child))
        invariant Inner(t) == Inner(t0) + got && ReachAll(t.kids) == ReachAll(t0.kids) + nodes
        invariant fresh(got) && fresh(nodes) && heap.live == old(heap.live) + got
        invariant ep == old(ep) && TypedItems(t.kids)
        invariant AfterElem(z, a, ItemValues(t0.kids)) == AfterElem(z, value, ItemValues(t.kids))
        decreases |z| - value
      {
        CommaStep(z, value, ItemValues(t.kids));
        ok, value, child, t, k := AppendElement(t, item, child, z, value + 1);
        got, nodes := got + Owned(k), nodes + Reach(k);
        if !ok {
          return false, value, t, got, nodes;
        }
      }
      EndStep(z, value, ItemValues(t.kids));
      if z[value] == RBRACKET {
        return true, value + 1, t, got, nodes;
      }
      ep := ErrorAt(value);
      return false, value, t, got, nodes;
    }

    /** The first element and all that follow, from behind the opening bracket on. */
    method ReadElements(ghost t0: Tree, item: Node, z: CString, ghost start: nat, from: nat)
      returns (ok: bool, value: nat, ghost t: Tree, ghost got: set<object>, ghost nodes: set<Node>)
      requires start < |z| && from == P.Skip(z, start) == P.Skip(z, from)
      requires !Collected(P.ParseElems(z, start), []).BadEscape?
      requires WellBuilt(t0) && t0.node == item && t0.text == null && t0.kids == []
      modifies heap, `ep, item`child
      ensures WellBuilt(t) && t == t0.(kids := t.kids)
      ensures Inner(t) == Inner(t0) + got && ReachAll(t.kids) == ReachAll(t0.kids) + nodes
      ensures fresh(got) && fresh(nodes) && heap.live == old(heap.live) + got
      ensures Read(Collected(P.ParseElems(z, start), []), ok, value, t, ep, old(ep))
      decreases |z| - from, 6
    {
      hide P.ParseValue, P.Skip, P.ParseElems, Siblings, Growing, Meaning, Value, Typed, Holds, Reach, ReachAll,
        Owned, OwnedAll, WellBuilt, Inner, ElementSet, Items, Collected, AfterElem;
      ElemStep(z, start, []);
      NoValues();
      var child;
      ghost var k, more, moreNodes;
      ok, value, child, t, k := AppendElement(t0, item, null, z, from);
      got, nodes := Owned(k), Reach(k);
      if ok {
        ok, value, t, more, moreNodes := MoreElements(t, item, child, z, value);
        got, nodes := got + more, nodes + moreNodes;
      }
    }

    method ParseArray(item: Node, z: CString, i: nat) returns (ok: bool, end: nat, ghost t: Tree)
      requires i < |z| && z[i] == LBRACKET && !P.ParseValue(z, i).BadEscape? && Unset(item)
      modifies heap, `ep, item`kind, item`child
      ensures Answers(P.ParseValue(z, i), ok, end, ep, old(ep))
      ensures t.node == item && WellBuilt(t) && t.name == item.name
      ensures fresh(Inner(t)) && fresh(ReachAll(t.kids)) && heap.live == old(heap.live) + Inner(t)
      ensures ok ==> Typed(t) && Value(t) == Meaning(P.ParseValue(z, i).value)
      decreases |z| - i, 1
    {
      hide P.ParseValue, P.Skip, P.ParseElems, Siblings, Growing, Meaning, Value, Typed, Holds, Reach, ReachAll,
        Owned, OwnedAll, WellBuilt, Inner, ElementSet, Items, ItemValues, TypedItems, Collected, AfterElem;
      ArrayStep(z, i);
      item.kind := KArray;
      var value := SkipBlanks(z, i + 1);
      t := Tree(item, KArray, false, item.name, null, item.valueint, item.valuedouble, []);
      Childless(t);
      if z[value] == RBRACKET {
        ArrayValue(t);
        return true, value + 1, t;
      }
      ghost var got, nodes;
      ok, end, t, got, nodes := ReadElements(t, item, z, i + 1, value);
      if ok {
        ArrayValue(t);
      }
    }

    /** The name of a member, up to where its value starts. The string is read as the child's value first
        and then becomes its name. */
    method ReadName(child: Node, z: CString, from: nat) returns (ok: bool, value: nat)
      requires from < |z| && !P.ParseName(z, from).BadEscape? && child.valuestring == null && child.name == null
      modifies heap, `ep, child`valuestring, child`kind, child`name
      ensures child.valuestring == null
      ensures child.name != null ==> fresh(child.name)
      ensures heap.live == old(heap.live) + (if child.name == null then {} else {child.name})
      ensures match P.ParseName(z, from)
        case Ok(n, g) => ok && value == g && ep == old(ep) && child.name != null && child.name.s == Decoded(n.key)
        case Fail(at) => !ok && ep == ErrorAt(at)
        case BadEscape => true
    {
      hide P.Skip, P.LexString, Decoded;
      value := SkipBlanks(z, from);
      ok, value := ParseString(child, z, value);
      if !ok {
        return false, value;
      }
      value := SkipBlanks(z, value);
      child.name := child.valuestring;
      child.valuestring := null;
      if z[value] != COLON {
        ep := ErrorAt(value);
        return false, value;
      }
      value := SkipBlanks(z, value + 1);
    }

    /** A new member's name and value. */
    method FillMember(child: Node, z: CString, from: nat) returns (ok: bool, value: nat, ghost t: Tree)
      requires from < |z| && !ParsePair(z, from).BadEscape? && child.Blank()
      modifies heap, `ep, child`valuestring, child`kind, child`name, child`child, child`valueint, child`valuedouble
      ensures t.node == child && WellBuilt(t)
      ensures fresh(ReachAll(t.kids)) && fresh(NameBlock(t) + Inner(t))
      ensures heap.live == old(heap.live) + (NameBlock(t) + Inner(t)) && NameBlock(t) !! Inner(t)
      ensures match ParsePair(z, from)
        case Ok(m, e) =>
          ok && value < |z| && P.Skip(z, value) == e && ep == old(ep) && Typed(t) && t.name != null
            && Member(t.name.s, Value(t)) == m
        case Fail(at) => !ok && ep == ErrorAt(at)
        case BadEscape => true
      decreases |z| - from, 3
    {
      hide P.ParseValue, P.ParseName, P.Skip, Meaning, Value, Typed, ReachAll, OwnedAll, WellBuilt, Decoded, Inner;
      ok, value := ReadName(child, z, from);
      if ok {
        ok, value, t := ParseValue(child, z, value);
      } else {
        t := Leaf(child);
        Childless(t);
      }
    }

    /** One object member: a new node linked behind the last, its name, its value, and the white space
        after it. */
    method ParseMember(item: Node, last: Node?, z: CString, from: nat, ghost kids: seq<Tree>)
      returns (ok: bool, value: nat, child: Node, ghost t: Tree)
      requires from < |z| && !ParsePair(z, from).BadEscape?
      requires Siblings(item, Roots(kids)) && Growing(item, kids)
      requires last == if kids == [] then null else kids[|kids| - 1].node
      modifies heap, `ep, item`child, (if last == null then {} else {last})`next
      ensures t.node == child && Siblings(item, Roots(kids + [t])) && Growing(item, kids + [t])
      ensures fresh(child) && fresh(Reach(t)) && fresh(Owned(t)) && heap.live == old(heap.live) + Owned(t)
      ensures match ParsePair(z, from)
        case Ok(m, e) =>
          ok && value == e && ep == old(ep) && Typed(t) && t.name != null && Member(t.name.s, Value(t)) == m
        case Fail(at) => !ok && ep == ErrorAt(at)
        case BadEscape => true
      decreases |z| - from, 4
    {
      OwnedAllAllocated(kids);
      ReachAllAllocated(kids);
      ReachFacts(kids);
      hide ParsePair, P.Skip, Siblings, Growing, Value, Typed, Holds, Reach, ReachAll, Owned, OwnedAll,
        WellBuilt, ElementSet, Inner;
      child := AddChild(heap, item, last, kids);
      ElementsAllocated(Roots(kids) + [child]);
      ok, value, t := FillMember(child, z, from);
      GrowChild(item, kids, t, child);
      ElementsAllocated(Roots(kids + [t]));
      ReachAllAllocated(kids + [t]);
      ReachFacts(kids + [t]);
      if ok {
        value := SkipBlanks(z, value);
      }
    }

    /** The next member of the object whose tree so far is t. */
    method AppendMember(ghost t: Tree, item: Node, last: Node?, z: CString, from: nat)
      returns (ok: bool, value: nat, child: Node, ghost t': Tree, ghost k: Tree)
      requires from < |z| && !ParsePair(z, from).BadEscape?
      requires WellBuilt(t) && t.node == item && t.text == null
      requires last == if t.kids == [] then null else t.kids[|t.kids| - 1].node
      modifies heap, `ep, item`child, (if last == null then {} else {last})`next
      ensures WellBuilt(t') && t' == t.(kids := t.kids + [k]) && child == k.node && fresh(child)
      ensures Inner(t') == Inner(t) + Owned(k) && ReachAll(t'.kids) == ReachAll(t.kids) + Reach(k)
      ensures fresh(Reach(k)) && fresh(Owned(k)) && heap.live == old(heap.live) + Owned(k)
      ensures match ParsePair(z, from)
        case Ok(m, e) =>
          && ok && value == e && ep == old(ep)
          && (TypedMembers(t.kids) ==>
                TypedMembers(t'.kids) && MemberValues(t'.kids) == MemberValues(t.kids) + [m])
        case Fail(at) => !ok && ep == ErrorAt(at)
        case BadEscape => true
      decreases |z| - from, 5
    {
      hide ParsePair, Siblings, Growing, Value, Typed, Holds, Reach, ReachAll, Owned, OwnedAll,
        WellBuilt, ElementSet, MemberValues, TypedMembers, Inner, Roots;
      Reopened(t);
      OwnedAllAllocated(t.kids);
      ok, value, child, k := ParseMember(item, last, z, from, t.kids);
      t' := t.(kids := t.kids + [k]);
      Appended(t, k, t');
    }

    /** The loop over the commas, from the index a behind a member on. */
    method MoreMembers(ghost t0: Tree, item: Node, last: Node, z: CString, a: nat)
      returns (ok: bool, value: nat, ghost t: Tree, ghost got: set<object>, ghost nodes: set<Node>)
      requires a < |z| && TypedMembers(t0.kids) && !AfterMember(z, a, MemberValues(t0.kids)).BadEscape?
      requires WellBuilt(t0) && t0.node == item && t0.text == null
      requires t0.kids != [] && last == t0.kids[|t0.kids| - 1].node
      modifies heap, `ep, item`child, last`next
      ensures WellBuilt(t) && t == t0.(kids := t.kids)
      ensures Inner(t) == Inner(t0) + got && ReachAll(t.kids) == ReachAll(t0.kids) + nodes
      ensures fresh(got) && fresh(nodes) && heap.live == old(heap.live) + got
      ensures ReadPairs(AfterMember(z, a, MemberValues(t0.kids)), ok, value, t, ep, old(ep))
      decreases |z| - a, 6
    {
      hide ParsePair, P.ParseMembers, Siblings, Growing, Holds, Reach, ReachAll, Owned, OwnedAll, WellBuilt, Inner,
        ElementSet, MemberValues, TypedMembers, CollectedPairs, AfterMember;
      ghost var k;
      value, t := a, t0;
      var child := last;
      got, nodes := {}, {};
      while z[value] == COMMA
        invariant value < |z| && t == t0.(kids := t.kids) && WellBuilt(t)
        invariant t.kids != [] && child == t.kids[|t.kids| - 1].node && (child == last || fresh(child))
        invariant Inner(t) == Inner(t0) + got && ReachAll(t.kids) == ReachAll(t0.kids) + nodes
        invariant fresh(got) && fresh(nodes) && heap.live == old(heap.live) + got
        invariant a <= value && ep == old(ep) && TypedMembers(t.kids)
        invariant AfterMember(z, a, MemberValues(t0.kids)) == AfterMember(z, value, MemberValues(t.kids))
        decreases |z| - value
      {
        MemberCommaStep(z, value, MemberValues(t.kids));
        PairEnds(z, value + 1);
        ok, value, child, t, k := AppendMember(t, item, child, z, value + 1);
        got, nodes := got + Owned(k), nodes + Reach(k);
        if !ok {
          return false, value, t, got, nodes;
        }
      }
      MemberEndStep(z, value, MemberValues(t.kids));
      if z[value] == RBRACE {
        return true, value + 1, t, got, nodes;
      }
      ep := ErrorAt(value);
      return false, value, t, got, nodes;
    }

    /** The first member and all that follow, from behind the opening brace on. */
    method ReadMembers(ghost t0: Tree, item: Node, z: CString, ghost start: nat, from: nat)
      returns (ok: bool, value: nat, ghost t: Tree, ghost got: set<object>, ghost nodes: set<Node>)
      requires start < |z| && from == P.Skip(z, start)
      requires !CollectedPairs(P.ParseMembers(z, start), []).BadEscape?
      requires WellBuilt(t0) && t0.node == item && t0.text == null && t0.kids == []
      modifies heap, `ep, item`child
      ensures WellBuilt(t) && t == t0.(kids := t.kids)
      ensures Inner(t) == Inner(t0) + got && ReachAll(t.kids) == ReachAll(t0.kids) + nodes
      ensures fresh(got) && fresh(nodes) && heap.live == old(heap.live) + got
      ensures ReadPairs(CollectedPairs(P.ParseMembers(z, start), []), ok, value, t, ep, old(ep))
      decreases |z| - from, 7
    {
      hide ParsePair, P.Skip, P.ParseMembers, Siblings, Growing, Holds, Reach, ReachAll, Owned, OwnedAll, WellBuilt,
        Inner, ElementSet, CollectedPairs, AfterMember;
      MemberStep(z, start, []);
      PairSkips(z, start);
      PairEnds(z, from);
      NoValues();
      var child;
      ghost var k, more, moreNodes;
      ok, value, child, t, k := AppendMember(t0, item, null, z, from);
      got, nodes := Owned(k), Reach(k);
      if ok {
        ok, value, t, more, moreNodes := MoreMembers(t, item, child, z, value);
        got, nodes := got + more, nodes + moreNodes;
      }
    }

    method ParseObject(item: Node, z: CString, i: nat) returns (ok: bool, end: nat, ghost t: Tree)
      requires i < |z| && z[i] == LBRACE && !P.ParseValue(z, i).BadEscape? && Unset(item)
      modifies heap, `ep, item`kind, item`child
      ensures Answers(P.ParseValue(z, i), ok, end, ep, old(ep))
      ensures t.node == item && WellBuilt(t) && t.name == item.name
      ensures fresh(Inner(t)) && fresh(ReachAll(t.kids)) && heap.live == old(heap.live) + Inner(t)
      ensures ok ==> Typed(t) && Value(t) == Meaning(P.ParseValue(z, i).value)
      decreases |z| - i, 1
    {
      hide P.ParseValue, P.Skip, P.ParseMembers, Siblings, Growing, Meaning, Value, Typed, Holds, Reach, ReachAll,
        Owned, OwnedAll, WellBuilt, Inner, ElementSet, Pairs, MemberValues, TypedMembers, CollectedPairs, AfterMember;
      ObjectStep(z, i);
      item.kind := KObject;
      var value := SkipBlanks(z, i + 1);
      t := Tree(item, KObject, false, item.name, null, item.valueint, item.valuedouble, []);
      Childless(t);
      if z[value] == RBRACE {
        ObjectValue(t);
        return true, value + 1, t;
      }
      ghost var got, nodes;
      ok, end, t, got, nodes := ReadMembers(t, item, z, i + 1, value);
      if ok {
        ObjectValue(t);
      }
    }

    /** null, false or true. */
    method ParseWord(item: Node, z: CString, i: nat) returns (found: bool, end: nat, ghost t: Tree)
      requires i < |z| && Unset(item)
      modifies item`kind, item`valueint
      ensures found <==>
              P.StartsWith(z, i, NULL_WORD) || P.StartsWith(z, i, FALSE_WORD) || P.StartsWith(z, i, TRUE_WORD)
      ensures found ==>
        && P.ParseValue(z, i).Ok? && end == P.ParseValue(z, i).end
        && t.node == item && WellBuilt(t) && t.name == item.name && Inner(t) == {} && ReachAll(t.kids) == {}
        && Typed(t) && Value(t) == Meaning(P.ParseValue(z, i).value)
      ensures !found ==> unchanged(item)
    {
      hide WellBuilt, Inner, ReachAll, P.StartsWith;
      WordsFirst(z, i);
      t := Leaf(item);
      end := i;
      found := Matches(z, i, NULL_WORD);
      if found {
        item.kind := KNull;
        t, end := Leaf(item), i + 4;
        Childless(t);
        return;
      }
      found := Matches(z, i, FALSE_WORD);
      if found {
        item.kind := KFalse;
        t, end := Leaf(item), i + 5;
        Childless(t);
        return;
      }
      found := Matches(z, i, TRUE_WORD);
      if found {
        item.kind := KTrue;
        item.valueint := 1;
        t, end := Leaf(item), i + 4;
        Childless(t);
      }
    }

    method ParseValue(item: Node, z: CString, i: nat) returns (ok: bool, end: nat, ghost t: Tree)
      requires i < |z| && !P.ParseValue(z, i).BadEscape? && Unset(item)
      modifies heap, `ep, item`kind, item`child, item`valuestring, item`valueint, item`valuedouble
      ensures Answers(P.ParseValue(z, i), ok, end, ep, old(ep))
      ensures t.node == item && WellBuilt(t) && t.name == item.name
      ensures fresh(Inner(t)) && fresh(ReachAll(t.kids)) && heap.live == old(heap.live) + Inner(t)
      ensures ok ==> Typed(t) && Value(t) == Meaning(P.ParseValue(z, i).value)
      decreases |z| - i, 2
    {
      hide WellBuilt, Inner, ReachAll, P.LexString, P.LexNumeral, P.StartsWith, Decoded, NumeralValue;
      ok, end, t := ParseWord(item, z, i);
      if ok {
        return;
      }
      if z[i] == QUOTE {
        ok, end := ParseString(item, z, i);
        t := Leaf(item);
        Childless(t);
      } else if z[i] == MINUS || ZERO <= z[i] <= NINE {
        end := ParseNumber(item, z, i);
        ok, t := true, Leaf(item);
        Childless(t);
      } else if z[i] == LBRACKET {
        ok, end, t := ParseArray(item, z, i);
      } else if z[i] == LBRACE {
        ok, end, t := ParseObject(item, z, i);
      } else {
        ep := ErrorAt(i);
        ok, end, t := false, i, Leaf(item);
        Childless(t);
      }
    }

    /** cJSON_ParseWithOpts: the tree and the index behind it, or nothing at all. */
    method ParseWithOpts(z: CString, whole: bool) returns (c: Node?, end: nat, ghost t: Tree)
      requires !P.ParseDoc(z, whole).BadEscape?
      modifies heap, `ep
      ensures match P.ParseDoc(z, whole)
        case Ok(d, e) =>
          && c != null && end == e && ep == NoError
          && c == t.node && WellBuilt(t) && c.next == null && c.prev == null
          && Typed(t) && Value(t) == Meaning(d.value)
          && fresh(Owned(t)) && heap.live == old(heap.live) + Owned(t)
        case Fail(at) => c == null && ep == ErrorAt(at) && heap.live == old(heap.live)
        case BadEscape => true
    {
      hide P.ParseValue, P.Skip, Meaning, Value, Typed, WellBuilt, Reach, ReachAll, OwnedAll;
      var item := heap.NewNode();
      ep := NoError;
      var ok;
      end := SkipBlanks(z, 0);
      ok, end, t := ParseValue(item, z, end);
      ReachAllocated(t);
      ReachAllAllocated(t.kids);
      if !ok {
        Rooted(t);
        Delete(heap, item, [t]);
        return null, end, t;
      }
      if whole {
        end := SkipBlanks(z, end);
        if z[end] != 0 {
          Rooted(t);
          Delete(heap, item, [t]);
          ep := ErrorAt(end);
          return null, end, t;
        }
      }
      Rooted(t);
      return item, end, t;
    }
  }
}
