/** The loops of parse_array and parse_object on values: what one turn of a loop does to what the whole
    loop will answer. */
module ParseLoops {
  import opened Bytes
  import opened Values
  import opened Syntax
  import P = Parsing
  import opened ParsingTheorems

  // ---------- Elements ----------

  function Collected(r: P.Parsed<Elems>, vals: seq<Json>): P.Parsed<seq<Json>> {
    match r
    case Ok(es, e) => P.Ok(vals + Items(es), e)
    case Fail(at) => P.Fail(at)
    case BadEscape => P.BadEscape
  }

  /** What is still to come when the values so far are followed by the text at a. */
  function AfterElem(z: CString, a: nat, vals: seq<Json>): P.Parsed<seq<Json>>
    requires a < |z|
  {
    if z[a] == COMMA then Collected(P.ParseElems(z, a + 1), vals)
    else if z[a] == RBRACKET then P.Ok(vals, a + 1)
    else P.Fail(a)
  }

  lemma ElemStep(z: CString, i: nat, vals: seq<Json>)
    requires i < |z|
    ensures var r := P.ParseValue(z, P.Skip(z, i));
      Collected(P.ParseElems(z, i), vals) ==
        if r.Ok? then AfterElem(z, P.Skip(z, r.end), vals + [Meaning(r.value)]) else r.PropagateFailure()
  {
    hide P.Skip, P.ParseValue, Meaning;
    var r := P.ParseValue(z, P.Skip(z, i));
    var s := P.ParseElems(z, i);
    if s.Ok? {
      var es := s.value;
      assert vals + Items(es) == vals + [Meaning(es.value)] + (if es.MoreElems? then Items(es.rest) else []);
      if es.LastElem? {
        assert vals + [Meaning(es.value)] + [] == vals + [Meaning(es.value)];
      }
    }
  }

  /** A comma: the loop takes another turn. */
  lemma CommaStep(z: CString, a: nat, vals: seq<Json>)
    requires a < |z| && z[a] == COMMA
    ensures a + 1 < |z|
    ensures var r := P.ParseValue(z, P.Skip(z, a + 1));
      AfterElem(z, a, vals) ==
        if r.Ok? then AfterElem(z, P.Skip(z, r.end), vals + [Meaning(r.value)]) else r.PropagateFailure()
  {
    hide P.Skip, P.ParseValue, P.ParseElems, Meaning, Collected;
    ElemStep(z, a + 1, vals);
  }

  /** No comma: the loop ends. */
  lemma EndStep(z: CString, a: nat, vals: seq<Json>)
    requires a < |z| && z[a] != COMMA
    ensures AfterElem(z, a, vals) == if z[a] == RBRACKET then P.Ok(vals, a + 1) else P.Fail(a)
  {
  }

  /** An array that is not empty is read by its element loop. */
  lemma ArrayStep(z: CString, i: nat)
    requires i < |z| && z[i] == LBRACKET
    ensures i + 1 < |z|
    ensures z[P.Skip(z, i + 1)] == RBRACKET ==>
      && P.ParseValue(z, i).Ok? && P.ParseValue(z, i).end == P.Skip(z, i + 1) + 1
      && Meaning(P.ParseValue(z, i).value) == Array([])
    ensures z[P.Skip(z, i + 1)] != RBRACKET ==>
      match Collected(P.ParseElems(z, i + 1), [])
      case Ok(vals, e) =>
        P.ParseValue(z, i).Ok? && P.ParseValue(z, i).end == e && Meaning(P.ParseValue(z, i).value) == Array(vals)
      case Fail(at) => P.ParseValue(z, i) == P.Fail(at)
      case BadEscape => P.ParseValue(z, i).BadEscape?
    ensures P.Skip(z, P.Skip(z, i + 1)) == P.Skip(z, i + 1)
  {
    SkipSound(z, i + 1);
    hide P.ParseElems;
    if z[P.Skip(z, i + 1)] != RBRACKET && P.ParseElems(z, i + 1).Ok? {
      var es := P.ParseElems(z, i + 1).value;
      assert [] + Items(es) == Items(es);
    }
  }

  // ---------- Members ----------

  function CollectedPairs(r: P.Parsed<Members>, vals: seq<Member>): P.Parsed<seq<Member>> {
    match r
    case Ok(ms, e) => P.Ok(vals + Pairs(ms), e)
    case Fail(at) => P.Fail(at)
    case BadEscape => P.BadEscape
  }

  /** One member, up to the white space behind its value. */
  function ParsePair(z: CString, i: nat): P.Parsed<Member>
    requires i < |z|
  {
    var (n, g) :- P.ParseName(z, i);
    var (v, e) :- P.ParseValue(z, g);
    P.Ok(Member(Decoded(n.key), Meaning(v)), P.Skip(z, e))
  }

  lemma PairEnds(z: CString, i: nat)
    requires i < |z|
    ensures ParsePair(z, i).Ok? ==> i < ParsePair(z, i).end < |z|
  {
  }

  function AfterMember(z: CString, a: nat, vals: seq<Member>): P.Parsed<seq<Member>>
    requires a < |z|
  {
    if z[a] == COMMA then CollectedPairs(P.ParseMembers(z, a + 1), vals)
    else if z[a] == RBRACE then P.Ok(vals, a + 1)
    else P.Fail(a)
  }

  lemma MemberStep(z: CString, i: nat, vals: seq<Member>)
    requires i < |z|
    ensures var r := ParsePair(z, i);
      CollectedPairs(P.ParseMembers(z, i), vals) ==
        if r.Ok? then AfterMember(z, r.end, vals + [r.value]) else r.PropagateFailure()
  {
    hide P.Skip, P.ParseValue, P.ParseName, Meaning, Decoded;
    var s := P.ParseMembers(z, i);
    if s.Ok? {
      var ms := s.value;
      var m := Member(Decoded(ms.name.key), Meaning(ms.value));
      assert vals + Pairs(ms) == vals + [m] + (if ms.MorePairs? then Pairs(ms.rest) else []);
      if ms.LastPair? {
        assert vals + [m] + [] == vals + [m];
      }
    }
  }

  lemma MemberCommaStep(z: CString, a: nat, vals: seq<Member>)
    requires a < |z| && z[a] == COMMA
    ensures a + 1 < |z|
    ensures var r := ParsePair(z, a + 1);
      AfterMember(z, a, vals) == if r.Ok? then AfterMember(z, r.end, vals + [r.value]) else r.PropagateFailure()
  {
    hide ParsePair, P.ParseMembers, CollectedPairs;
    MemberStep(z, a + 1, vals);
  }

  lemma MemberEndStep(z: CString, a: nat, vals: seq<Member>)
    requires a < |z| && z[a] != COMMA
    ensures AfterMember(z, a, vals) == if z[a] == RBRACE then P.Ok(vals, a + 1) else P.Fail(a)
  {
  }

  /** An object that is not empty is read by its member loop, which skips again what is skipped already. */
  lemma ObjectStep(z: CString, i: nat)
    requires i < |z| && z[i] == LBRACE
    ensures i + 1 < |z|
    ensures z[P.Skip(z, i + 1)] == RBRACE ==>
      && P.ParseValue(z, i).Ok? && P.ParseValue(z, i).end == P.Skip(z, i + 1) + 1
      && Meaning(P.ParseValue(z, i).value) == Object([])
    ensures z[P.Skip(z, i + 1)] != RBRACE ==>
      match CollectedPairs(P.ParseMembers(z, i + 1), [])
      case Ok(vals, e) =>
        P.ParseValue(z, i).Ok? && P.ParseValue(z, i).end == e && Meaning(P.ParseValue(z, i).value) == Object(vals)
      case Fail(at) => P.ParseValue(z, i) == P.Fail(at)
      case BadEscape => P.ParseValue(z, i).BadEscape?
    ensures P.Skip(z, P.Skip(z, i + 1)) == P.Skip(z, i + 1)
  {
    SkipSound(z, i + 1);
    hide P.ParseMembers;
    if z[P.Skip(z, i + 1)] != RBRACE && P.ParseMembers(z, i + 1).Ok? {
      var ms := P.ParseMembers(z, i + 1).value;
      assert [] + Pairs(ms) == Pairs(ms);
    }
  }

  /** The white space in front of a member may be skipped beforehand. */
  lemma PairSkips(z: CString, i: nat)
    requires i < |z|
    ensures ParsePair(z, i) == ParsePair(z, P.Skip(z, i))
  {
    NameSkips(z, i);
    hide P.ParseName, P.Skip, P.ParseValue, Decoded, Meaning;
  }

  lemma NameSkips(z: CString, i: nat)
    requires i < |z|
    ensures var r, s := P.ParseName(z, i), P.ParseName(z, P.Skip(z, i));
      && r.Ok? == s.Ok? && (r.Ok? ==> r.end == s.end && r.value.key == s.value.key)
      && (!r.Ok? ==> r == s)
  {
    SkipSound(z, i);
    var b := P.Skip(z, i);
    assert P.Skip(z, b) == b;
    hide P.LexString, P.Skip;
  }
}
