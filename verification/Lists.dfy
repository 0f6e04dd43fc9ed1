/** The child list of an array or object: pointer surgery against sequence operations. */
module Lists {
  import opened Bytes
  import opened Nodes

  // ---------- Sequences ----------

  function RemoveAt<T>(s: seq<T>, i: nat): seq<T>
    requires i < |s|
  {
    s[..i] + s[i + 1..]
  }

  function InsertAt<T>(s: seq<T>, i: nat, x: T): seq<T>
    requires i <= |s|
  {
    s[..i] + [x] + s[i..]
  }

  /** Where a caller's index leads: a negative one to the first child, one too large behind the last. */
  function Position(which: int, n: nat): (k: nat)
    ensures k <= n
  {
    if which <= 0 then 0 else if which < n then which else n
  }

  /** Detaching and inserting at the same place are inverse. */
  lemma DetachInsert<T>(s: seq<T>, i: nat)
    requires i < |s|
    ensures InsertAt(RemoveAt(s, i), i, s[i]) == s
    ensures forall x :: RemoveAt(InsertAt(s, i, x), i) == s
  {
    var r := RemoveAt(s, i);
    assert r[..i] == s[..i] && r[i..] == s[i + 1..];
    forall x ensures RemoveAt(InsertAt(s, i, x), i) == s {
      var t := InsertAt(s, i, x);
      assert t[..i] == s[..i] && t[i + 1..] == s[i..];
      assert s[..i] + s[i..] == s;
    }
  }

  // ---------- Reading ----------

  method GetArraySize(parent: Node, ghost ks: seq<Node>) returns (n: nat)
    requires Leads(parent, ks)
    ensures n == |ks|
  {
    var c := parent.child;
    n := 0;
    while c != null
      invariant n <= |ks| && c == if n < |ks| then ks[n] else null
      decreases |ks| - n
    {
      LeadsAt(parent, ks, n);
      n, c := n + 1, c.next;
    }
  }

  method GetArrayItem(parent: Node, which: int, ghost ks: seq<Node>) returns (c: Node?)
    requires Leads(parent, ks)
    ensures var k := Position(which, |ks|); c == if k < |ks| then ks[k] else null
    ensures c == if ks == [] || which >= |ks| then null else if which < 0 then ks[0] else ks[which]
  {
    c := parent.child;
    var w := which;
    ghost var k := 0;
    while c != null && w > 0
      invariant k <= |ks| && c == if k < |ks| then ks[k] else null
      invariant w > 0 ==> w == which - k
      invariant w <= 0 ==> k == Position(which, |ks|)
      decreases |ks| - k
    {
      LeadsAt(parent, ks, k);
      w, c := w - 1, c.next;
      k := k + 1;
    }
  }

  // ---------- Names ----------

  /** tolower in the C locale. */
  function Lower(b: byte): byte {
    if 65 <= b <= 90 then b + 32 else b
  }

  /** Equal but for upper and lower case; a missing name equals a missing name. */
  predicate SameName(a: CStr?, b: CStr?) {
    if a == null || b == null then a == b
    else |a.s| == |b.s| && forall i | 0 <= i < |a.s| :: Lower(a.s[i]) == Lower(b.s[i])
  }

  /** An ASCII letter, A being 65 and Z 90, and its other case, 32 further on. */
  predicate OtherCase(a: byte, b: byte) {
    (65 <= a <= 90 && b == a + 32) || (65 <= b <= 90 && a == b + 32)
  }

  lemma LowerSame(a: byte, b: byte)
    ensures Lower(a) == Lower(b) <==> a == b || OtherCase(a, b)
  {
  }

  /** Two names match if and only if they are of one length and each byte is the other's or its other case. */
  lemma SameNameExactly(a: CStr, b: CStr)
    ensures SameName(a, b) <==>
      |a.s| == |b.s| && forall i | 0 <= i < |a.s| :: a.s[i] == b.s[i] || OtherCase(a.s[i], b.s[i])
  {
    forall x: byte, y: byte ensures Lower(x) == Lower(y) <==> x == y || OtherCase(x, y) {
      LowerSame(x, y);
    }
    hide Lower, OtherCase;
  }

  method StrCaseCmp(s1: CStr?, s2: CStr?) returns (r: int)
    ensures r == 0 <==> SameName(s1, s2)
  {
    if s1 == null {
      return if s1 == s2 then 0 else 1;
    }
    if s2 == null {
      return 1;
    }
    var z1, z2 := Terminated(s1.s), Terminated(s2.s);
    var k := 0;
    while Lower(z1[k]) == Lower(z2[k])
      invariant k < |z1| && k < |z2| && z1[..k] == s1.s[..k] && z2[..k] == s2.s[..k]
      invariant forall i | 0 <= i < k :: Lower(z1[i]) == Lower(z2[i])
      decreases |z1| - k
    {
      if z1[k] == 0 {
        return 0;
      }
      k := k + 1;
    }
    r := Lower(z1[k]) as int - Lower(z2[k]) as int;
  }

  ghost predicate Named(ks: seq<Node>, names: seq<CStr?>)
    reads ElementSet(ks)`name
  {
    |names| == |ks| && forall i | 0 <= i < |ks| :: ks[i].name == names[i]
  }

  /** The first name that matches, or the number of names. */
  ghost function FirstMatch(names: seq<CStr?>, key: CStr?): (k: nat)
    ensures k <= |names| && (k < |names| ==> SameName(names[k], key))
    ensures forall i | 0 <= i < k :: !SameName(names[i], key)
  {
    if names == [] || SameName(names[0], key) then 0 else 1 + FirstMatch(names[1..], key)
  }

  lemma {:induction false} FirstMatchIs(names: seq<CStr?>, key: CStr?, k: nat)
    requires k <= |names| && (k < |names| ==> SameName(names[k], key))
    requires forall i | 0 <= i < k :: !SameName(names[i], key)
    ensures k == FirstMatch(names, key)
  {
    var m := FirstMatch(names, key);
    assert !(m < k) && !(k < m);
  }

  /** The search loop of the by-name functions. */
  method FindName(owner: Node, key: CStr?, ghost ks: seq<Node>, ghost names: seq<CStr?>)
    returns (c: Node?, i: nat)
    requires Leads(owner, ks) && Named(ks, names)
    ensures i == FirstMatch(names, key) && c == if i < |ks| then ks[i] else null
  {
    c, i := owner.child, 0;
    while c != null
      invariant i <= |ks| && c == if i < |ks| then ks[i] else null
      invariant forall j | 0 <= j < i :: !SameName(names[j], key)
      decreases |ks| - i
    {
      var d := StrCaseCmp(c.name, key);
      if d == 0 {
        break;
      }
      LeadsAt(owner, ks, i);
      c, i := c.next, i + 1;
    }
    FirstMatchIs(names, key, i);
  }

  method GetObjectItem(owner: Node, key: CStr?, ghost ks: seq<Node>, ghost names: seq<CStr?>)
    returns (c: Node?)
    requires Leads(owner, ks) && Named(ks, names)
    ensures var k := FirstMatch(names, key); c == if k < |ks| then ks[k] else null
  {
    var i;
    c, i := FindName(owner, key, ks, names);
  }

  // ---------- Adding ----------

  method AddItemToArray(parent: Node, item: Node?, ghost ks: seq<Node>)
    requires Siblings(parent, ks)
    requires item != null ==> item !in ks && item.next == null && item.prev == null
    modifies parent`child, ElementSet(ks)`next, (if item == null then {} else {item})`prev
    ensures Siblings(parent, if item == null then ks else ks + [item])
  {
    var c := parent.child;
    if item == null {
      return;
    }
    ghost var k := 0;
    if c != null {
      while c.next != null
        invariant k < |ks| && c == ks[k]
        decreases |ks| - k
        modifies {}
      {
        SiblingsAt(parent, ks, k);
        c := c.next;
        k := k + 1;
      }
      SiblingsAt(parent, ks, k);
    }
    LinkLast(parent, c, item, ks);
  }

  // ---------- Detaching ----------

  /** The list without its element k, whose neighbours have been linked to each other. */
  lemma Removed(parent: Node, ks: seq<Node>, k: nat)
    requires k < |ks| && NoRepeats(ks)
    requires parent.child == (if k > 0 then ks[0] else if |ks| > 1 then ks[1] else null)
    requires forall i {:trigger ks[i].prev} | 0 <= i < |ks| && i != k && i != k + 1 ::
      ks[i].prev == (if i == 0 then null else ks[i - 1])
    requires forall i {:trigger ks[i].next} | 0 <= i < |ks| && i != k && i + 1 != k ::
      ks[i].next == (if i == |ks| - 1 then null else ks[i + 1])
    requires k + 1 < |ks| ==> ks[k + 1].prev == (if k == 0 then null else ks[k - 1])
    requires k > 0 ==> ks[k - 1].next == (if k == |ks| - 1 then null else ks[k + 1])
    ensures Siblings(parent, RemoveAt(ks, k))
  {
    var rs := RemoveAt(ks, k);
    forall i | 0 <= i < |rs|
      ensures rs[i].prev == (if i == 0 then null else rs[i - 1])
      ensures rs[i].next == (if i == |rs| - 1 then null else rs[i + 1])
    {
      if i < k {
        assert rs[i] == ks[i];
        assert ks[i].prev == (if i == 0 then null else ks[i - 1]);
        if i + 1 < k {
          assert ks[i].next == (if i == |ks| - 1 then null else ks[i + 1]);
        }
      } else {
        assert rs[i] == ks[i + 1];
        assert ks[i + 1].next == (if i + 1 == |ks| - 1 then null else ks[i + 1 + 1]);
        if i > k {
          assert ks[i + 1].prev == (if i + 1 == 0 then null else ks[i + 1 - 1]);
        }
      }
    }
    assert forall i | 0 <= i < |rs| :: rs[i].prev == (if i == 0 then null else rs[i - 1]);
    assert forall i | 0 <= i < |rs| :: rs[i].next == (if i == |rs| - 1 then null else rs[i + 1]);
    assert NoRepeats(rs);
    assert parent.child == (if rs == [] then null else rs[0]);
    assert Siblings(parent, rs);
  }

  /** The pointers of a node are as before, lead nowhere, or to the next of the node they led to. */
  twostate predicate Skips(m: Node)
    reads m
  {
    && (m.child == old(m.child) || m.child == null || (old(m.child) != null && m.child == old(m.child.next)))
    && (m.next == old(m.next) || m.next == null || (old(m.next) != null && m.next == old(m.next.next)))
  }

  method DetachItemFromArray(parent: Node, which: int, ghost ks: seq<Node>) returns (c: Node?)
    requires Siblings(parent, ks)
    modifies parent`child, ElementSet(ks)`next, ElementSet(ks)`prev
    ensures var k := Position(which, |ks|);
      if k < |ks| then c == ks[k] && c.next == null && c.prev == null && Siblings(parent, RemoveAt(ks, k))
      else c == null && Siblings(parent, ks)
    ensures c == null ==> unchanged(parent) && forall n | n in ks :: unchanged(n)
    ensures Skips(parent) && forall n | n in ks :: Skips(n)
  {
    SiblingsLead(parent, ks);
    c := GetArrayItem(parent, which, ks);
    ghost var k := Position(which, |ks|);
    if c == null {
      return;
    }
    SiblingsAt(parent, ks, k);
    if c.prev != null {
      c.prev.next := c.next;
    }
    if c.next != null {
      c.next.prev := c.prev;
    }
    if c == parent.child {
      parent.child := c.next;
    }
    c.prev := null;
    c.next := null;
    forall i | 0 <= i < |ks| && i != k
      ensures i != k + 1 ==> ks[i].prev == (if i == 0 then null else ks[i - 1])
      ensures i + 1 != k ==> ks[i].next == (if i == |ks| - 1 then null else ks[i + 1])
    {
      assert old(ks[i].prev) == (if i == 0 then null else ks[i - 1]);
      assert old(ks[i].next) == (if i == |ks| - 1 then null else ks[i + 1]);
    }
    Removed(parent, ks, k);
  }

  // ---------- Inserting ----------

  /** The list with n linked in front of its element k. */
  lemma Inserted(parent: Node, ks: seq<Node>, k: nat, n: Node)
    requires k < |ks| && NoRepeats(ks) && n !in ks
    requires parent.child == (if k == 0 then n else ks[0])
    requires forall i {:trigger ks[i].prev} | 0 <= i < |ks| && i != k ::
      ks[i].prev == (if i == 0 then null else ks[i - 1])
    requires forall i {:trigger ks[i].next} | 0 <= i < |ks| && i + 1 != k ::
      ks[i].next == (if i == |ks| - 1 then null else ks[i + 1])
    requires ks[k].prev == n && n.next == ks[k] && n.prev == (if k == 0 then null else ks[k - 1])
    requires k > 0 ==> ks[k - 1].next == n
    ensures Siblings(parent, InsertAt(ks, k, n))
  {
    var rs := InsertAt(ks, k, n);
    forall i | 0 <= i < |rs|
      ensures rs[i].prev == (if i == 0 then null else rs[i - 1])
      ensures rs[i].next == (if i == |rs| - 1 then null else rs[i + 1])
    {
      if i < k {
        assert rs[i] == ks[i];
        if i + 1 < k {
          assert ks[i].next == (if i == |ks| - 1 then null else ks[i + 1]);
        }
        assert ks[i].prev == (if i == 0 then null else ks[i - 1]);
      } else if i > k {
        assert rs[i] == ks[i - 1];
        assert ks[i - 1].next == (if i - 1 == |ks| - 1 then null else ks[i - 1 + 1]);
        if i > k + 1 {
          assert ks[i - 1].prev == (if i - 1 == 0 then null else ks[i - 1 - 1]);
        }
      }
    }
    assert forall i | 0 <= i < |rs| :: rs[i].prev == (if i == 0 then null else rs[i - 1]);
    assert forall i | 0 <= i < |rs| :: rs[i].next == (if i == |rs| - 1 then null else rs[i + 1]);
    assert NoRepeats(rs);
    assert parent.child == (if rs == [] then null else rs[0]);
    assert Siblings(parent, rs);
  }

  method InsertItemInArray(parent: Node, which: int, newitem: Node, ghost ks: seq<Node>)
    requires Siblings(parent, ks) && newitem !in ks && newitem.next == null && newitem.prev == null
    modifies parent`child, ElementSet(ks)`next, ElementSet(ks)`prev, newitem`next, newitem`prev
    ensures Siblings(parent, InsertAt(ks, Position(which, |ks|), newitem))
  {
    SiblingsLead(parent, ks);
    var c := GetArrayItem(parent, which, ks);
    ghost var k := Position(which, |ks|);
    if c == null {
      assert InsertAt(ks, k, newitem) == ks + [newitem];
      AddItemToArray(parent, newitem, ks);
      return;
    }
    SiblingsAt(parent, ks, k);
    newitem.next := c;
    newitem.prev := c.prev;
    c.prev := newitem;
    if c == parent.child {
      parent.child := newitem;
    } else {
      newitem.prev.next := newitem;
    }
    forall i | 0 <= i < |ks|
      ensures i != k ==> ks[i].prev == (if i == 0 then null else ks[i - 1])
      ensures i + 1 != k ==> ks[i].next == (if i == |ks| - 1 then null else ks[i + 1])
    {
      assert old(ks[i].prev) == (if i == 0 then null else ks[i - 1]);
      assert old(ks[i].next) == (if i == |ks| - 1 then null else ks[i + 1]);
    }
    Inserted(parent, ks, k, newitem);
  }

  // ---------- Replacing ----------

  /** The list with n linked in the place of its element k. */
  lemma Replaced(parent: Node, ks: seq<Node>, k: nat, n: Node)
    requires k < |ks| && NoRepeats(ks) && n !in ks
    requires parent.child == (if k == 0 then n else ks[0])
    requires forall i {:trigger ks[i].prev} | 0 <= i < |ks| && i != k && i != k + 1 ::
      ks[i].prev == (if i == 0 then null else ks[i - 1])
    requires forall i {:trigger ks[i].next} | 0 <= i < |ks| && i != k && i + 1 != k ::
      ks[i].next == (if i == |ks| - 1 then null else ks[i + 1])
    requires n.prev == (if k == 0 then null else ks[k - 1]) && n.next == (if k == |ks| - 1 then null else ks[k + 1])
    requires k > 0 ==> ks[k - 1].next == n
    requires k + 1 < |ks| ==> ks[k + 1].prev == n
    ensures Siblings(parent, ks[k := n])
  {
    var rs := ks[k := n];
    forall i | 0 <= i < |rs|
      ensures rs[i].prev == (if i == 0 then null else rs[i - 1])
      ensures rs[i].next == (if i == |rs| - 1 then null else rs[i + 1])
    {
      if i != k {
        assert rs[i] == ks[i];
        if i != k + 1 {
          assert ks[i].prev == (if i == 0 then null else ks[i - 1]);
        }
        if i + 1 != k {
          assert ks[i].next == (if i == |ks| - 1 then null else ks[i + 1]);
        }
      }
    }
    assert forall i | 0 <= i < |rs| :: rs[i].prev == (if i == 0 then null else rs[i - 1]);
    assert forall i | 0 <= i < |rs| :: rs[i].next == (if i == |rs| - 1 then null else rs[i + 1]);
    assert NoRepeats(rs);
    assert parent.child == (if rs == [] then null else rs[0]);
    assert Siblings(parent, rs);
  }

  /** The linking of cJSON_ReplaceItemInArray: the old item, if any, is handed back with no links. */
  method SwapItemInArray(parent: Node, which: int, newitem: Node, ghost ks: seq<Node>) returns (c: Node?)
    requires Siblings(parent, ks) && newitem !in ks
    modifies parent`child, ElementSet(ks)`next, ElementSet(ks)`prev, newitem`next, newitem`prev
    ensures var k := Position(which, |ks|);
      if k < |ks| then c == ks[k] && c.next == null && c.prev == null && Siblings(parent, ks[k := newitem])
      else c == null && Siblings(parent, ks)
    ensures c == null ==> unchanged(parent) && unchanged(newitem) && forall n | n in ks :: unchanged(n)
  {
    SiblingsLead(parent, ks);
    c := GetArrayItem(parent, which, ks);
    ghost var k := Position(which, |ks|);
    if c == null {
      return;
    }
    SiblingsAt(parent, ks, k);
    newitem.next := c.next;
    newitem.prev := c.prev;
    if newitem.next != null {
      newitem.next.prev := newitem;
    }
    if c == parent.child {
      parent.child := newitem;
    } else {
      newitem.prev.next := newitem;
    }
    c.next := null;
    c.prev := null;
    forall i | 0 <= i < |ks| && i != k
      ensures i != k + 1 ==> ks[i].prev == (if i == 0 then null else ks[i - 1])
      ensures i + 1 != k ==> ks[i].next == (if i == |ks| - 1 then null else ks[i + 1])
    {
      assert old(ks[i].prev) == (if i == 0 then null else ks[i - 1]);
      assert old(ks[i].next) == (if i == |ks| - 1 then null else ks[i + 1]);
    }
    Replaced(parent, ks, k, newitem);
  }
}
