/** Where parsing fails: what stands in front of the error pointer begins some text that is accepted, and what stands
    there begins none. */
module ErrorPointers {
  import opened Bytes
  import opened Syntax
  import opened Parsing
  import opened ParsingTheorems

  // ---------- What is read depends on little more ----------

  /** Both texts have more than k bytes, and the first k are the same. */
  predicate Agree(z: CString, y: CString, k: nat) {
    k < |z| && k < |y| && z[..k] == y[..k]
  }

  lemma AgreeAt(z: CString, y: CString, k: nat, i: nat)
    requires Agree(z, y, k) && i < k
    ensures i < |z| && i < |y| && z[i] == y[i]
  {
    assert z[..k][i] == y[..k][i];
  }

  lemma AgreeSlice(z: CString, y: CString, k: nat, i: nat, j: nat)
    requires Agree(z, y, k) && i <= j <= k
    ensures z[i..j] == y[i..j]
  {
    assert z[..k][i..j] == z[i..j] && y[..k][i..j] == y[i..j];
  }

  lemma {:induction false} SkipLocal(z: CString, y: CString, k: nat, i: nat)
    requires Agree(z, y, k) && i < |z| && Skip(z, i) < k
    ensures i < |y| && Skip(y, i) == Skip(z, i)
    decreases |z| - i
  {
    AgreeAt(z, y, k, i);
    if IsSkipped(z[i]) {
      SkipLocal(z, y, k, i + 1);
    }
  }

  lemma {:induction false} RunLocal(z: CString, y: CString, k: nat, i: nat)
    requires Agree(z, y, k) && i < |z| && RunEnd(z, i) < k
    ensures i < |y| && RunEnd(y, i) == RunEnd(z, i) && Run(y, i) == Run(z, i)
    decreases |z| - i
  {
    AgreeAt(z, y, k, i);
    AgreeSlice(z, y, k, i, RunEnd(z, i));
    if IsDigit(z[i]) {
      RunLocal(z, y, k, i + 1);
    }
  }

  lemma WholeLocal(z: CString, y: CString, k: nat, i: nat)
    requires Agree(z, y, k) && i < |z| && i + |LexWhole(z, i)| < k
    ensures i < |y| && LexWhole(y, i) == LexWhole(z, i)
  {
    AgreeAt(z, y, k, i);
    if ZERO < z[i] <= NINE {
      RunLocal(z, y, k, i);
    }
  }

  lemma FracLocal(z: CString, y: CString, k: nat, i: nat)
    requires Agree(z, y, k) && i < |z| && i + |RenderFrac(LexFrac(z, i))| + 1 < k
    ensures i < |y| && LexFrac(y, i) == LexFrac(z, i)
  {
    AgreeAt(z, y, k, i);
    AgreeAt(z, y, k, i + 1);
    if z[i] == DOT && IsDigit(z[i + 1]) {
      RunLocal(z, y, k, i + 1);
    }
  }

  lemma ExpLocal(z: CString, y: CString, k: nat, i: nat)
    requires Agree(z, y, k) && i < |z| && i + |RenderExp(LexExp(z, i))| + 1 < k
    ensures i < |y| && LexExp(y, i) == LexExp(z, i)
  {
    hide Agree, Run, RunEnd, IsCString;
    AgreeAt(z, y, k, i);
    if z[i] == LOWER_E || z[i] == UPPER_E {
      AgreeAt(z, y, k, i + 1);
      var j := if z[i + 1] == PLUS || z[i + 1] == MINUS then i + 2 else i + 1;
      RunIs(z, j);
      RunLocal(z, y, k, j);
    }
  }

  lemma RunIs(z: CString, i: nat)
    requires i < |z|
    ensures i + |Run(z, i)| == RunEnd(z, i)
  {
  }

  lemma NumeralLocal(z: CString, y: CString, k: nat, i: nat)
    requires Agree(z, y, k) && i < |z| && StartsNumeral(z[i]) && LexNumeral(z, i).end + 2 <= k
    ensures i < |y| && StartsNumeral(y[i]) && LexNumeral(y, i) == LexNumeral(z, i)
  {
    hide LexWhole, LexFrac, LexExp, RenderFrac, RenderExp, IsCString, Agree;
    AgreeAt(z, y, k, i);
    var p := if z[i] == MINUS then i + 1 else i;
    AgreeAt(z, y, k, p);
    var q := if z[p] == ZERO then p + 1 else p;
    WholeLocal(z, y, k, q);
    FracLocal(z, y, k, q + |LexWhole(z, q)|);
    ExpLocal(z, y, k, q + |LexWhole(z, q)| + |RenderFrac(LexFrac(z, q + |LexWhole(z, q)|))|);
  }

  lemma {:induction false} LitLocal(z: CString, y: CString, k: nat, i: nat)
    requires Agree(z, y, k) && i < |z| && LexLit(z, i).Literal? && LexLit(z, i).end < k
    ensures i < |y| && LexLit(y, i) == LexLit(z, i)
    decreases |z| - i
  {
    AgreeAt(z, y, k, i);
    if z[i] == QUOTE || z[i] == 0 {
    } else if z[i] != BACKSLASH {
      LitLocal(z, y, k, i + 1);
    } else {
      AgreeAt(z, y, k, i + 1);
      if z[i + 1] == LOWER_U {
        AgreeAt(z, y, k, i + 2);
        AgreeAt(z, y, k, i + 3);
        AgreeAt(z, y, k, i + 4);
        AgreeAt(z, y, k, i + 5);
        LitLocal(z, y, k, i + 6);
      } else {
        LitLocal(z, y, k, i + 2);
      }
    }
  }

  lemma StringLocal(z: CString, y: CString, k: nat, i: nat)
    requires Agree(z, y, k) && i < k
    requires var r := LexString(z, i); (r.Ok? && r.end < k) || r.Fail?
    ensures i < |y| && LexString(y, i) == LexString(z, i)
  {
    AgreeAt(z, y, k, i);
    if z[i] == QUOTE {
      LitLocal(z, y, k, i + 1);
      AgreeAt(z, y, k, LexLit(z, i + 1).end);
    }
  }

  lemma WordLocal(z: CString, y: CString, k: nat, i: nat, w: bytes)
    requires Agree(z, y, k) && i + |w| <= k
    ensures StartsWith(z, i, w) <==> StartsWith(y, i, w)
  {
    AgreeSlice(z, y, k, i, i + |w|);
  }

  /** The result is settled by the first k bytes: what was read ends two bytes before, or the failure is five before. */
  predicate Settled<T>(r: Parsed<T>, k: nat) {
    (r.Ok? && r.end + 2 <= k) || (r.Fail? && r.at + 5 <= k)
  }

  lemma ScalarLocal(z: CString, y: CString, k: nat, i: nat)
    requires Agree(z, y, k) && i < k && z[i] != LBRACKET && z[i] != LBRACE && Settled(ParseScalar(z, i), k)
    ensures i < |y| && ParseScalar(y, i) == ParseScalar(z, i)
  {
    hide LexString, LexNumeral, IsCString, Agree, StartsWith;
    AgreeAt(z, y, k, i);
    FirstLetter(z, i);
    FirstLetter(y, i);
    if z[i] == QUOTE {
      StringLocal(z, y, k, i);
    } else if StartsNumeral(z[i]) {
      NumeralLocal(z, y, k, i);
    } else {
      WordsLocal(z, y, k, i);
    }
  }

  /** Quotes and numerals start no word. */
  lemma FirstLetter(z: CString, i: nat)
    requires i < |z|
    ensures z[i] == QUOTE || StartsNumeral(z[i]) ==>
      !StartsWith(z, i, NULL_WORD) && !StartsWith(z, i, FALSE_WORD) && !StartsWith(z, i, TRUE_WORD)
  {
    WordsFirst(z, i);
  }

  lemma WordsLocal(z: CString, y: CString, k: nat, i: nat)
    requires Agree(z, y, k) && i < k && z[i] != QUOTE && !StartsNumeral(z[i]) && Settled(ParseScalar(z, i), k)
    ensures i < |y| && ParseScalar(y, i) == ParseScalar(z, i)
  {
    hide StartsWith, Agree;
    AgreeAt(z, y, k, i);
    WordLocal(z, y, k, i, NULL_WORD);
    if !StartsWith(z, i, NULL_WORD) {
      WordLocal(z, y, k, i, FALSE_WORD);
      WordLocal(z, y, k, i, TRUE_WORD);
    }
  }

  lemma ElemsAfter(z: CString, i: nat)
    requires i < |z|
    ensures ParseElems(z, i).Ok? ==> Skip(z, i) < ParseElems(z, i).end
    ensures ParseElems(z, i).Fail? ==> Skip(z, i) <= ParseElems(z, i).at
  {
    hide Skip, ParseValue, IsCString;
  }

  lemma NameAfter(z: CString, i: nat)
    requires i < |z|
    ensures ParseName(z, i).Ok? ==> Skip(z, i) < ParseName(z, i).end
    ensures ParseName(z, i).Fail? ==> Skip(z, i) <= ParseName(z, i).at
  {
    hide Skip, LexString, IsCString;
  }

  lemma MembersAfter(z: CString, i: nat)
    requires i < |z|
    ensures ParseMembers(z, i).Ok? ==> Skip(z, i) < ParseMembers(z, i).end
    ensures ParseMembers(z, i).Fail? ==> Skip(z, i) <= ParseMembers(z, i).at
  {
    NameAfter(z, i);
    hide Skip, ParseValue, ParseName, IsCString;
  }

  /** The byte behind the gap after a bracket is among the first k. */
  lemma BracketLocal(z: CString, y: CString, k: nat, i: nat)
    requires Agree(z, y, k) && i < k && (z[i] == LBRACKET || z[i] == LBRACE) && Settled(ParseValue(z, i), k)
    ensures var j := Skip(z, i + 1); j < k && i < |y| && y[i] == z[i] && Skip(y, i + 1) == j && y[j] == z[j]
    ensures z[i + 1..Skip(z, i + 1)] == y[i + 1..Skip(z, i + 1)]
  {
    var j := Skip(z, i + 1);
    ElemsAfter(z, i + 1);
    MembersAfter(z, i + 1);
    hide Skip, ParseElems, ParseMembers, ParseScalar, IsCString, Agree;
    assert j < k;
    AgreeAt(z, y, k, i);
    SkipLocal(z, y, k, i + 1);
    AgreeAt(z, y, k, j);
    AgreeSlice(z, y, k, i + 1, j);
  }

  lemma {:induction false} ValueLocal(z: CString, y: CString, k: nat, i: nat)
    requires Agree(z, y, k) && i < k && Settled(ParseValue(z, i), k)
    ensures i < |y| && ParseValue(y, i) == ParseValue(z, i)
    decreases |z| - i, 0
  {
    hide ParseScalar, Skip, ParseElems, ParseMembers, IsCString, Agree;
    AgreeAt(z, y, k, i);
    if z[i] == LBRACKET || z[i] == LBRACE {
      var j := Skip(z, i + 1);
      BracketLocal(z, y, k, i);
      if z[j] != RBRACKET && z[i] == LBRACKET {
        ElemsLocal(z, y, k, i + 1);
      } else if z[j] != RBRACE && z[i] == LBRACE {
        MembersLocal(z, y, k, i + 1);
      }
    } else {
      ScalarLocal(z, y, k, i);
    }
  }

  /** Where a value ends and what follows it. */
  lemma BehindLocal(z: CString, y: CString, k: nat, e: nat)
    requires Agree(z, y, k) && e < |z| && Skip(z, e) < k
    ensures var a := Skip(z, e); e < |y| && Skip(y, e) == a && y[a] == z[a] && y[e..a] == z[e..a]
  {
    SkipLocal(z, y, k, e);
    AgreeAt(z, y, k, Skip(z, e));
    AgreeSlice(z, y, k, e, Skip(z, e));
  }

  lemma {:induction false} ElemsLocal(z: CString, y: CString, k: nat, i: nat)
    requires Agree(z, y, k) && i < k && Settled(ParseElems(z, i), k)
    ensures i < |y| && ParseElems(y, i) == ParseElems(z, i)
    decreases |z| - i, 1
  {
    hide Skip, ParseValue, ParseElems, IsCString, Agree;
    ElemsAfter(z, i);
    BehindLocal(z, y, k, i);
    var b := Skip(z, i);
    ElemsCases(z, i);
    ElemsCases(y, i);
    ValueLocal(z, y, k, b);
    if ParseValue(z, b).Ok? {
      var a := Skip(z, ParseValue(z, b).end);
      BehindLocal(z, y, k, ParseValue(z, b).end);
      if z[a] == COMMA {
        ElemsLocal(z, y, k, a + 1);
      }
    }
  }

  lemma ElemsCases(z: CString, i: nat)
    requires i < |z|
    ensures ParseElems(z, i) ==
      var b := Skip(z, i);
      match ParseValue(z, b)
      case BadEscape => BadEscape
      case Fail(at) => Fail(at)
      case Ok(v, e) =>
        var a := Skip(z, e);
        if z[a] == COMMA then
          (match ParseElems(z, a + 1)
           case BadEscape => BadEscape
           case Fail(at) => Fail(at)
           case Ok(rest, end) => Ok(MoreElems(z[i..b], v, z[e..a], rest), end))
        else if z[a] == RBRACKET then Ok(LastElem(z[i..b], v, z[e..a]), a + 1)
        else Fail(a)
  {
    hide Skip, ParseValue, IsCString;
  }

  lemma NameLocal(z: CString, y: CString, k: nat, i: nat)
    requires Agree(z, y, k) && i < k
    requires var r := ParseName(z, i); (r.Ok? && r.end < k) || (r.Fail? && r.at < k)
    ensures i < |y| && ParseName(y, i) == ParseName(z, i)
  {
    hide Skip, LexString, IsCString, Agree;
    NameAfter(z, i);
    BehindLocal(z, y, k, i);
    var b := Skip(z, i);
    var l := LexString(z, b);
    if l.Ok? {
      var m := Skip(z, l.end);
      BehindLocal(z, y, k, l.end);
      StringLocal(z, y, k, b);
      if z[m] == COLON {
        BehindLocal(z, y, k, m + 1);
      }
    } else {
      StringLocal(z, y, k, b);
    }
  }

  lemma {:induction false} MembersLocal(z: CString, y: CString, k: nat, i: nat)
    requires Agree(z, y, k) && i < k && Settled(ParseMembers(z, i), k)
    ensures i < |y| && ParseMembers(y, i) == ParseMembers(z, i)
    decreases |z| - i, 1
  {
    hide Skip, ParseValue, ParseName, IsCString, Agree;
    var n := ParseName(z, i);
    if n.Ok? {
      var g := n.end;
      var v := ParseValue(z, g);
      if v.Ok? {
        var a := Skip(z, v.end);
        if z[a] == COMMA {
          MembersLocal(z, y, k, a + 1);
        }
        BehindLocal(z, y, k, v.end);
      }
      NameLocal(z, y, k, i);
      ValueLocal(z, y, k, g);
    } else {
      NameLocal(z, y, k, i);
    }
  }

  /** A failure is settled by the bytes up to the fifth from the error pointer on. */
  lemma FailureLocal(z: CString, y: CString)
    requires ParseDoc(z, true).Fail?
    requires var at := ParseDoc(z, true).at; at + 5 <= |z| - 1 && Agree(z, y, at + 5)
    ensures ParseDoc(y, true) == ParseDoc(z, true)
  {
    hide Skip, ParseValue, IsCString, Agree;
    var at := ParseDoc(z, true).at;
    var k, b := at + 5, Skip(z, 0);
    BehindLocal(z, y, k, 0);
    ValueLocal(z, y, k, b);
    if ParseValue(z, b).Ok? {
      BehindLocal(z, y, k, ParseValue(z, b).end);
    }
  }

  // ---------- What stands in front can be completed ----------

  /** The text begins with bytes i to j of z. */
  predicate Begins(t: bytes, z: CString, i: nat, j: nat) {
    i <= j <= |z| && j - i <= |t| && t[..j - i] == z[i..j]
  }

  lemma BeginsMore(z: CString, i: nat, j: nat, t: bytes, u: bytes, k: nat)
    requires Spans(z, i, t, j) && Begins(u, z, j, k)
    ensures Begins(t + u, z, i, k)
  {
    assert z[i..k] == z[i..j] + z[j..k];
    assert (t + u)[..k - i] == t + u[..k - j];
  }

  lemma BeginsLonger(z: CString, i: nat, k: nat, t: bytes, u: bytes)
    requires Begins(t, z, i, k)
    ensures Begins(t + u, z, i, k)
  {
    assert (t + u)[..k - i] == t[..k - i];
  }

  /** The value with its string closed. */
  function Closed(c: Cst): Cst {
    if c.COpenString? then CString(c.lit) else c
  }

  lemma ClosedValue(z: CString, i: nat)
    requires i < |z| && ParseValue(z, i).Ok?
    ensures var r := ParseValue(z, i); var c := Closed(r.value);
      Valid(c, Skipped) && !c.COpenString? && Begins(Render(c), z, i, r.end)
    ensures var r := ParseValue(z, i); r.value.COpenString? ==> z[r.end] == 0
  {
    hide ParseValue, Render, IsCString;
    ValueSound(z, i);
    var r := ParseValue(z, i);
    if r.value.COpenString? {
      OpenClosed(r.value.lit);
      BeginsLonger(z, i, r.end, Render(r.value), [QUOTE]);
    }
  }

  lemma OpenClosed(l: Lit)
    ensures Render(CString(l)) == Render(COpenString(l)) + [QUOTE]
  {
  }

  lemma {:induction false} ValueDone(z: CString, i: nat) returns (c: Cst)
    requires i < |z| && ParseValue(z, i).Fail?
    ensures Valid(c, Skipped) && !c.COpenString? && Begins(Render(c), z, i, ParseValue(z, i).at)
    decreases |z| - i, 0
  {
    hide Skip, ParseElems, ParseMembers, IsCString, AllSkipped, RenderElems, RenderMembers;
    if z[i] == LBRACKET && z[Skip(z, i + 1)] != RBRACKET {
      var es := ElemsDone(z, i + 1);
      c := CArray(es);
      SpanByte(z, i, LBRACKET);
      BeginsMore(z, i, i + 1, [LBRACKET], RenderElems(es), ParseValue(z, i).at);
    } else if z[i] == LBRACE && z[Skip(z, i + 1)] != RBRACE {
      var ms := MembersDone(z, i + 1);
      c := CObject(ms);
      SpanByte(z, i, LBRACE);
      BeginsMore(z, i, i + 1, [LBRACE], RenderMembers(ms), ParseValue(z, i).at);
    } else {
      c := CNull;
    }
  }

  lemma Gap(z: CString, i: nat)
    requires i < |z|
    ensures var b := Skip(z, i); AllSkipped(z[i..b]) && Spans(z, i, z[i..b], b) && AllSkipped([])
  {
    SkipSound(z, i);
    SpanSlice(z, i, Skip(z, i));
  }

  lemma BeginsAll(z: CString, i: nat, s: bytes, j: nat)
    requires Spans(z, i, s, j)
    ensures Begins(s, z, i, j)
  {
  }

  lemma {:induction false} ElemsDone(z: CString, i: nat) returns (es: Elems)
    requires i < |z| && ParseElems(z, i).Fail?
    ensures ValidElems(es, Skipped) && Begins(RenderElems(es), z, i, ParseElems(z, i).at)
    decreases |z| - i, 1
  {
    hide Skip, ParseValue, IsCString, AllSkipped, Spans, Begins;
    var b, at := Skip(z, i), ParseElems(z, i).at;
    Gap(z, i);
    var v := ParseValue(z, b);
    if v.Fail? {
      var c := ValueDone(z, b);
      es := LastElem(z[i..b], c, []);
      BeginsLonger(z, b, at, Render(c), [RBRACKET]);
      assert RenderElems(es) == z[i..b] + (Render(c) + [RBRACKET]);
      BeginsMore(z, i, b, z[i..b], Render(c) + [RBRACKET], at);
    } else {
      es := ElemsOnDone(z, i);
    }
  }

  /** At the end of the text there is no gap. */
  lemma NoGap(z: CString, e: nat)
    requires e < |z| && z[e] == 0
    ensures Skip(z, e) == e && z[e..e] == []
  {
  }

  /** A value and the gap behind it, whether its string is closed or not. */
  lemma ValueGap(z: CString, b: nat, tail: bytes)
    requires b < |z| && ParseValue(z, b).Ok?
    ensures var v := ParseValue(z, b); var a := Skip(z, v.end);
      Begins(Render(Closed(v.value)) + (z[v.end..a] + tail), z, b, a)
  {
    hide ParseValue, Skip, Render, IsCString, Spans, Begins, AllSkipped;
    var v := ParseValue(z, b);
    var a, c := Skip(z, v.end), Closed(v.value);
    ClosedValue(z, b);
    if v.value.COpenString? {
      NoGap(z, v.end);
      BeginsLonger(z, b, a, Render(c), z[v.end..a] + tail);
    } else {
      ValueSound(z, b);
      Gap(z, v.end);
      BeginsAll(z, v.end, z[v.end..a], a);
      BeginsLonger(z, v.end, a, z[v.end..a], tail);
      BeginsMore(z, b, v.end, Render(c), z[v.end..a] + tail, a);
    }
  }

  lemma CommaClosed(z: CString, b: nat)
    requires b < |z| && ParseValue(z, b).Ok? && z[Skip(z, ParseValue(z, b).end)] == COMMA
    ensures !ParseValue(z, b).value.COpenString?
  {
    hide ParseValue, Skip, IsCString;
    ClosedValue(z, b);
    if ParseValue(z, b).value.COpenString? {
      NoGap(z, ParseValue(z, b).end);
      assert false;
    }
  }

  /** A value, the gap and the comma behind it, and more. */
  lemma ValueComma(z: CString, b: nat, rest: bytes, at: nat)
    requires b < |z| && ParseValue(z, b).Ok?
    requires var a := Skip(z, ParseValue(z, b).end); z[a] == COMMA && Begins(rest, z, a + 1, at)
    ensures var v := ParseValue(z, b); var a := Skip(z, v.end);
      Begins(Render(v.value) + (z[v.end..a] + ([COMMA] + rest)), z, b, at)
  {
    hide ParseValue, Skip, Render, IsCString, Spans, Begins, AllSkipped;
    var v := ParseValue(z, b);
    var a := Skip(z, v.end);
    CommaClosed(z, b);
    ValueSound(z, b);
    Gap(z, v.end);
    SpanByte(z, a, COMMA);
    BeginsMore(z, a, a + 1, [COMMA], rest, at);
    BeginsMore(z, v.end, a, z[v.end..a], [COMMA] + rest, at);
    BeginsMore(z, b, v.end, Render(v.value), z[v.end..a] + ([COMMA] + rest), at);
  }

  lemma {:induction false} ElemsOnDone(z: CString, i: nat) returns (es: Elems)
    requires i < |z| && ParseElems(z, i).Fail? && ParseValue(z, Skip(z, i)).Ok?
    ensures ValidElems(es, Skipped) && Begins(RenderElems(es), z, i, ParseElems(z, i).at)
    decreases |z| - i, 0
  {
    hide Skip, ParseValue, IsCString, AllSkipped, Spans, Begins;
    var b, at := Skip(z, i), ParseElems(z, i).at;
    var v := ParseValue(z, b);
    var a, c := Skip(z, v.end), Closed(v.value);
    Gap(z, i);
    Gap(z, v.end);
    ClosedValue(z, b);
    if z[a] == COMMA {
      var rest := ElemsDone(z, a + 1);
      CommaClosed(z, b);
      ValueComma(z, b, RenderElems(rest), at);
      es := MoreElems(z[i..b], v.value, z[v.end..a], rest);
    } else {
      ValueGap(z, b, [RBRACKET]);
      es := LastElem(z[i..b], c, z[v.end..a]);
    }
    BeginsMore(z, i, b, z[i..b], RenderElems(es)[b - i..], at) by {
      assert RenderElems(es)[b - i..] == RenderElemsTail(es);
    }
    assert RenderElems(es) == z[i..b] + RenderElems(es)[b - i..];
  }

  function RenderElemsTail(es: Elems): bytes {
    Render(es.value) + (es.after + (if es.MoreElems? then [COMMA] + RenderElems(es.rest) else [RBRACKET]))
  }

  lemma {:induction false} MembersDone(z: CString, i: nat) returns (ms: Members)
    requires i < |z| && ParseMembers(z, i).Fail?
    ensures ValidMembers(ms, Skipped) && Begins(RenderMembers(ms), z, i, ParseMembers(z, i).at)
    decreases |z| - i, 1
  {
    hide Skip, ParseValue, ParseName, IsCString, AllSkipped, Spans, Begins, RenderName, Render;
    var at := ParseMembers(z, i).at;
    var n := ParseName(z, i);
    if n.Fail? {
      var name := NameDone(z, i);
      ms := LastPair(name, CNull, []);
      NoneSkipped();
      BeginsLonger(z, i, at, RenderName(name), Render(CNull) + ([] + [RBRACE]));
    } else {
      var g := n.end;
      NameSound(z, i);
      NoneSkipped();
      var v := ParseValue(z, g);
      if v.Fail? {
        var c := ValueDone(z, g);
        ms := LastPair(n.value, c, []);
        BeginsLonger(z, g, at, Render(c), [] + [RBRACE]);
        BeginsMore(z, i, g, RenderName(n.value), Render(c) + ([] + [RBRACE]), at);
      } else {
        ms := MembersOnDone(z, i);
      }
    }
  }

  lemma NoneSkipped()
    ensures AllSkipped([])
  {
  }

  lemma {:induction false} MembersOnDone(z: CString, i: nat) returns (ms: Members)
    requires i < |z| && ParseMembers(z, i).Fail? && ParseName(z, i).Ok? && ParseValue(z, ParseName(z, i).end).Ok?
    ensures ValidMembers(ms, Skipped) && Begins(RenderMembers(ms), z, i, ParseMembers(z, i).at)
    decreases |z| - i, 0
  {
    hide Skip, ParseValue, ParseName, IsCString, AllSkipped, Spans, Begins, RenderName, Render;
    var at, n := ParseMembers(z, i).at, ParseName(z, i);
    var g := n.end;
    var v := ParseValue(z, g);
    var a, c := Skip(z, v.end), Closed(v.value);
    NameSound(z, i);
    Gap(z, v.end);
    ClosedValue(z, g);
    if z[a] == COMMA {
      var rest := MembersDone(z, a + 1);
      CommaClosed(z, g);
      ValueComma(z, g, RenderMembers(rest), at);
      ms := MorePairs(n.value, v.value, z[v.end..a], rest);
      BeginsMore(z, i, g, RenderName(n.value), Render(v.value) + (z[v.end..a] + ([COMMA] + RenderMembers(rest))), at);
    } else {
      ValueGap(z, g, [RBRACE]);
      ms := LastPair(n.value, c, z[v.end..a]);
      BeginsMore(z, i, g, RenderName(n.value), Render(c) + (z[v.end..a] + [RBRACE]), at);
    }
  }

  /** A name that fails: there is no quote, or no colon behind it. */
  lemma NameDone(z: CString, i: nat) returns (n: Name)
    requires i < |z| && ParseName(z, i).Fail?
    ensures ValidName(n, Skipped) && Begins(RenderName(n), z, i, ParseName(z, i).at)
  {
    hide Skip, LexString, IsCString, AllSkipped, Spans, Begins, RenderString;
    var b, at := Skip(z, i), ParseName(z, i).at;
    Gap(z, i);
    var l := LexString(z, b);
    if l.Fail? {
      n := Name(z[i..b], End, [], []);
      BeginsAll(z, i, z[i..b], b);
      BeginsLonger(z, i, b, z[i..b], RenderString(End) + ([] + ([COLON] + [])));
    } else {
      var m := Skip(z, l.end);
      Gap(z, l.end);
      StringSound(z, b);
      n := Name(z[i..b], l.value.0, z[l.end..m], []);
      KeyGap(z, b, [COLON] + []);
      BeginsMore(z, i, b, z[i..b], RenderString(l.value.0) + (z[l.end..m] + ([COLON] + [])), m);
    }
  }

  lemma OpenLit(l: Lit)
    ensures RenderString(l) == [QUOTE] + RenderLit(l) + [QUOTE]
  {
  }

  /** A literal, closed or not, and the gap behind it. */
  lemma KeyGap(z: CString, b: nat, tail: bytes)
    requires b < |z| && LexString(z, b).Ok?
    ensures var l := LexString(z, b); var m := Skip(z, l.end);
      Begins(RenderString(l.value.0) + (z[l.end..m] + tail), z, b, m)
  {
    var l := LexString(z, b);
    var lit, e := l.value.0, l.end;
    StringSound(z, b);
    hide LexString, Skip, RenderString, IsCString, Spans, Begins, AllSkipped;
    var m := Skip(z, e);
    Gap(z, e);
    if l.value.1 {
      BeginsAll(z, e, z[e..m], m);
      BeginsLonger(z, e, m, z[e..m], tail);
      BeginsMore(z, b, e, RenderString(lit), z[e..m] + tail, m);
    } else {
      NoGap(z, e);
      OpenLit(lit);
      BeginsAll(z, b, [QUOTE] + RenderLit(lit), e);
      BeginsLonger(z, b, e, [QUOTE] + RenderLit(lit), [QUOTE]);
      BeginsLonger(z, b, e, RenderString(lit), z[e..m] + tail);
    }
  }

  /** Behind the value only skipped bytes may stand. */
  lemma DocDone(z: CString) returns (d: Doc)
    requires ParseDoc(z, true).Fail?
    ensures ValidDoc(d, Skipped) && Begins(RenderDoc(d), z, 0, ParseDoc(z, true).at)
  {
    hide Skip, ParseValue, IsCString, AllSkipped, Spans, Begins, Render;
    var b, at := Skip(z, 0), ParseDoc(z, true).at;
    Gap(z, 0);
    assert z[..b] == z[0..b];
    var v := ParseValue(z, b);
    if v.Fail? {
      var c := ValueDone(z, b);
      d := Doc(z[..b], c, []);
      BeginsLonger(z, b, at, Render(c), []);
      BeginsMore(z, 0, b, z[..b], Render(c) + [], at);
    } else {
      var a, c := Skip(z, v.end), Closed(v.value);
      Gap(z, v.end);
      ClosedValue(z, b);
      ValueGap(z, b, []);
      d := Doc(z[..b], c, z[v.end..a]);
      assert z[v.end..a] + [] == z[v.end..a];
      BeginsMore(z, 0, b, z[..b], Render(c) + z[v.end..a], a);
    }
  }

  /** The error pointer divides the text: what stands in front of it begins a text that is accepted, and no text that
      goes on as this one does for five more bytes is. */
  lemma ErrorExactly(z: CString)
    requires ParseDoc(z, true).Fail?
    ensures var at := ParseDoc(z, true).at;
      && (exists y: CString :: at <= |y| && y[..at] == z[..at] && ParseDoc(y, true).Ok?)
      && forall y: CString | at + 5 <= |z| - 1 && Agree(z, y, at + 5) :: ParseDoc(y, true) == Fail(at)
  {
    hide ParseDoc, ValidDoc, RenderDoc, IsCString, Agree;
    var at := ParseDoc(z, true).at;
    var d := DocDone(z);
    DocComplete(d);
    var y := Terminated(RenderDoc(d));
    assert y[..at] == z[..at];
    forall y: CString | at + 5 <= |z| - 1 && Agree(z, y, at + 5) ensures ParseDoc(y, true) == Fail(at) {
      FailureLocal(z, y);
    }
  }
}
