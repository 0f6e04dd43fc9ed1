/** What the minifier takes away, told byte by byte: the four blanks of JSON and C comments, and nothing else. */
module MinifyingLaws {
  import opened Bytes
  import opened Syntax
  import opened Minifying
  import opened MinifyingTheorems
  import opened Rfc8259
  import G = Grammar

  /** Two slashes and what follows up to a line feed. */
  predicate IsLine(c: bytes) {
    && |c| >= 3 && c[0] == '/' as int && c[1] == '/' as int && c[|c| - 1] == 0x0A
    && forall i | 2 <= i < |c| - 1 :: c[i] != 0x0A && c[i] != 0
  }

  /** Slash and star and what follows up to the first star and slash; the star may be the opening one. */
  predicate IsBlock(c: bytes) {
    && |c| >= 3 && c[0] == '/' as int && c[1] == '*' as int && c[|c| - 2] == '*' as int && c[|c| - 1] == '/' as int
    && forall i | 1 <= i < |c| - 2 :: c[i] != 0 && !(c[i] == '*' as int && c[i + 1] == '/' as int)
  }

  /** Blanks and comments. */
  ghost predicate Idle(g: bytes)
    decreases |g|
  {
    || g == []
    || (Blank(g[0]) && Idle(g[1..]))
    || exists n | 3 <= n <= |g| :: (IsLine(g[..n]) || IsBlock(g[..n])) && Idle(g[n..])
  }

  lemma LineEndsAt(g: bytes, n: nat)
    requires 3 <= n <= |g| && IsLine(g[..n])
    ensures LineComment(g) && LineEnd(g, 2) == n - 1 && g[n - 1] == LF
  {
    LineEndFrom(g, n, 2);
  }

  lemma {:induction false} LineEndFrom(g: bytes, n: nat, k: nat)
    requires 3 <= n <= |g| && IsLine(g[..n]) && 2 <= k < n
    ensures LineEnd(g, k) == n - 1
    decreases n - k
  {
    if k < n - 1 {
      assert g[..n][k] == g[k];
      LineEndFrom(g, n, k + 1);
    }
  }

  lemma BlockEndsAt(g: bytes, n: nat)
    requires 3 <= n <= |g| && IsBlock(g[..n])
    ensures BlockComment(g) && BlockEnd(g, 1) == n - 2 && !LineComment(g)
  {
    BlockEndFrom(g, n, 1);
  }

  lemma {:induction false} BlockEndFrom(g: bytes, n: nat, k: nat)
    requires 3 <= n <= |g| && IsBlock(g[..n]) && 1 <= k < n - 1
    ensures BlockEnd(g, k) == n - 2
    decreases n - k
  {
    if k < n - 2 {
      assert g[..n][k] == g[k] && g[..n][k + 1] == g[k + 1];
      BlockEndFrom(g, n, k + 1);
    }
  }

  lemma NoNul(c: bytes)
    requires IsLine(c) || IsBlock(c)
    ensures NulFree(c)
  {
  }

  /** Of blanks and comments nothing is kept. */
  lemma {:induction false} IdleGone(g: bytes)
    requires Idle(g)
    ensures NulFree(g) && IsCommented(g) && Kept(g) == []
    decreases |g|
  {
    if g != [] {
      if Blank(g[0]) && Idle(g[1..]) {
        IdleGone(g[1..]);
        assert forall i | 0 < i < |g| :: g[i] == g[1..][i - 1];
      } else {
        var n :| 3 <= n <= |g| && (IsLine(g[..n]) || IsBlock(g[..n])) && Idle(g[n..]);
        IdleGone(g[n..]);
        CommentGone(g, n);
      }
    }
  }

  lemma CommentGone(g: bytes, n: nat)
    requires 3 <= n <= |g| && (IsLine(g[..n]) || IsBlock(g[..n]))
    requires NulFree(g[n..]) && IsCommented(g[n..]) && Kept(g[n..]) == []
    ensures NulFree(g) && IsCommented(g) && Kept(g) == []
  {
    NoNul(g[..n]);
    assert g == g[..n] + g[n..];
    if IsLine(g[..n]) {
      LineEndsAt(g, n);
      var r := g[n - 1..];
      assert r[1..] == g[n..] && r[0] == LF;
      hide LineEnd, BlockEnd, IsLine, IsBlock;
      assert IsCommented(r) && Kept(r) == [];
    } else {
      BlockEndsAt(g, n);
      hide LineEnd, BlockEnd, IsLine, IsBlock;
    }
  }

  // ---------- Whole texts ----------

  /** The tree with every gap empty. */
  function Squeezed(c: Cst): Cst {
    match c
    case CNoElems(_) => CNoElems([])
    case CArray(es) => CArray(SqueezedElems(es))
    case CNoMembers(_) => CNoMembers([])
    case CObject(ms) => CObject(SqueezedMembers(ms))
    case _ => c
  }

  function SqueezedElems(es: Elems): Elems {
    if es.MoreElems? then MoreElems([], Squeezed(es.value), [], SqueezedElems(es.rest))
    else LastElem([], Squeezed(es.value), [])
  }

  function SqueezedMembers(ms: Members): Members {
    var name := Name([], ms.name.key, [], []);
    if ms.MorePairs? then MorePairs(name, Squeezed(ms.value), [], SqueezedMembers(ms.rest))
    else LastPair(name, Squeezed(ms.value), [])
  }

  /** All gaps hold blanks only, or blanks and comments. */
  ghost predicate Loose(g: bytes, comments: bool) {
    if comments then Idle(g) else Blanks(g)
  }

  ghost predicate Gaps(c: Cst, comments: bool) {
    match c
    case CNoElems(g) => Loose(g, comments)
    case CArray(es) => ElemGaps(es, comments)
    case CNoMembers(g) => Loose(g, comments)
    case CObject(ms) => MemberGaps(ms, comments)
    case _ => true
  }

  ghost predicate ElemGaps(es: Elems, comments: bool) {
    Loose(es.before, comments) && Gaps(es.value, comments) && Loose(es.after, comments)
    && (es.MoreElems? ==> ElemGaps(es.rest, comments))
  }

  ghost predicate MemberGaps(ms: Members, comments: bool) {
    && Loose(ms.name.before, comments) && Loose(ms.name.middle, comments) && Loose(ms.name.gap, comments)
    && Gaps(ms.value, comments) && Loose(ms.after, comments) && (ms.MorePairs? ==> MemberGaps(ms.rest, comments))
  }

  lemma {:induction false} BlanksIdle(g: bytes)
    requires Blanks(g)
    ensures Idle(g)
    decreases |g|
  {
    if g != [] {
      BlanksIdle(g[1..]);
    }
  }

  lemma LooseGone(g: bytes, comments: bool)
    requires Loose(g, comments)
    ensures GapIs(g, Commented) && Kept(g) == []
  {
    if !comments {
      BlanksIdle(g);
    }
    IdleGone(g);
  }

  lemma {:induction false} StripIsSqueezed(c: Cst, comments: bool)
    requires Gaps(c, comments)
    ensures Strip(c) == Squeezed(c)
    ensures Valid(Squeezed(c), Skipped) ==> Valid(c, Commented)
  {
    hide Loose, Kept, IsCommented;
    match c
    case CNoElems(g) => LooseGone(g, comments);
    case CNoMembers(g) => LooseGone(g, comments);
    case CArray(es) => StripElemsSqueezed(es, comments);
    case CObject(ms) => StripMembersSqueezed(ms, comments);
    case _ =>
  }

  lemma {:induction false} StripElemsSqueezed(es: Elems, comments: bool)
    requires ElemGaps(es, comments)
    ensures StripElems(es) == SqueezedElems(es)
    ensures ValidElems(SqueezedElems(es), Skipped) ==> ValidElems(es, Commented)
  {
    hide Loose, Kept, IsCommented, AllSkipped;
    LooseGone(es.before, comments);
    StripIsSqueezed(es.value, comments);
    SameShape(es.value);
    LooseGone(es.after, comments);
    if es.MoreElems? {
      StripElemsSqueezed(es.rest, comments);
    }
  }

  lemma SameShape(c: Cst)
    ensures Squeezed(c).COpenString? == c.COpenString?
  {
  }

  lemma {:induction false} StripMembersSqueezed(ms: Members, comments: bool)
    requires MemberGaps(ms, comments)
    ensures StripMembers(ms) == SqueezedMembers(ms)
    ensures ValidMembers(SqueezedMembers(ms), Skipped) ==> ValidMembers(ms, Commented)
  {
    hide Loose, Kept, IsCommented, AllSkipped;
    LooseGone(ms.name.before, comments);
    LooseGone(ms.name.middle, comments);
    LooseGone(ms.name.gap, comments);
    StripIsSqueezed(ms.value, comments);
    SameShape(ms.value);
    LooseGone(ms.after, comments);
    if ms.MorePairs? {
      StripMembersSqueezed(ms.rest, comments);
    }
  }

  lemma {:induction false} EndOfCommented(g: bytes)
    requires IsCommented(g)
    ensures IsCommentedEnd(g)
    decreases |g|
  {
    if g != [] {
      if IsSkipped(g[0]) && IsCommented(g[1..]) {
        EndOfCommented(g[1..]);
      } else if LineComment(g) && IsCommented(g[LineEnd(g, 2)..]) {
        EndOfCommented(g[LineEnd(g, 2)..]);
      } else {
        EndOfCommented(g[BlockEnd(g, 1) + 2..]);
      }
    }
  }

  /** From a text whose gaps hold nothing but blanks and comments all of them are taken, and nothing else. */
  lemma MinifiedIsSqueezed(d: Doc, comments: bool)
    requires Loose(d.before, comments) && Gaps(d.value, comments) && Loose(d.after, comments)
    requires Valid(Squeezed(d.value), Skipped) && !d.value.COpenString?
    ensures NulFree(RenderDoc(d))
    ensures Minify(Terminated(RenderDoc(d)), 0) == Text(Render(Squeezed(d.value)))
  {
    hide Loose, Kept, IsCommented, IsCommentedEnd, Minify, Render, Strip, Squeezed, Valid;
    LooseGone(d.before, comments);
    LooseGone(d.after, comments);
    StripIsSqueezed(d.value, comments);
    EndOfCommented(d.after);
    assert ValidDoc(d, Commented);
    MinifyThenParse(d);
    assert RenderDoc(StripDoc(d)) == Render(Squeezed(d.value));
  }

  // ---------- Blanks and RFC 8259 ----------

  lemma BlanksStandard(g: bytes)
    ensures Blanks(g) <==> AllStandard(g)
  {
  }

  lemma NoBlanks()
    ensures AllStandard([])
  {
  }

  lemma {:induction false} SqueezedStrict(c: Cst)
    requires Gaps(c, false)
    ensures G.Strict(Squeezed(c)) <==> G.Strict(c)
  {
    hide AllStandard, Blanks;
    NoBlanks();
    match c
    case CNoElems(g) => BlanksStandard(g);
    case CNoMembers(g) => BlanksStandard(g);
    case CArray(es) => ElemsStrict(es);
    case CObject(ms) => MembersStrict(ms);
    case _ =>
  }

  lemma {:induction false} ElemsStrict(es: Elems)
    requires ElemGaps(es, false)
    ensures G.StrictElems(SqueezedElems(es)) <==> G.StrictElems(es)
  {
    hide AllStandard, Blanks;
    NoBlanks();
    BlanksStandard(es.before);
    BlanksStandard(es.after);
    SqueezedStrict(es.value);
    if es.MoreElems? {
      ElemsStrict(es.rest);
    }
  }

  lemma {:induction false} MembersStrict(ms: Members)
    requires MemberGaps(ms, false)
    ensures G.StrictMembers(SqueezedMembers(ms)) <==> G.StrictMembers(ms)
  {
    hide AllStandard, Blanks;
    NoBlanks();
    BlanksStandard(ms.name.before);
    BlanksStandard(ms.name.middle);
    BlanksStandard(ms.name.gap);
    BlanksStandard(ms.after);
    SqueezedStrict(ms.value);
    if ms.MorePairs? {
      MembersStrict(ms.rest);
    }
  }

  /** Blanks between the tokens of a conforming text leave it conforming. */
  lemma BlanksConform(d: Doc)
    requires Blanks(d.before) && Gaps(d.value, false) && Blanks(d.after) && G.Strict(Squeezed(d.value))
    ensures G.Conforms(RenderDoc(d))
  {
    BlanksStandard(d.before);
    BlanksStandard(d.after);
    SqueezedStrict(d.value);
    assert G.StrictDoc(d);
  }

  lemma {:induction false} NoClose(z: CString, k: nat)
    requires k < |z| && forall i | k <= i < |z| - 1 :: !(z[i] == STAR && z[i + 1] == SLASH)
    ensures z[BlockStop(z, k)] == 0
    decreases |z| - k
  {
    if z[k] != 0 {
      NoClose(z, k + 1);
    }
  }

  /** A block comment that is not closed makes the minifier run off the end of the text. */
  lemma UnclosedOverruns(b: bytes)
    requires NulFree(b)
    requires var s := Ascii("/*") + b; forall i | 1 <= i < |s| - 1 :: !(s[i] == '*' as int && s[i + 1] == '/' as int)
    ensures NulFree(Ascii("/*") + b) && Minify(Terminated(Ascii("/*") + b), 0) == Overrun
  {
    assert Ascii("/*") == [SLASH, STAR];
    var z := Terminated(Ascii("/*") + b);
    NoClose(z, 0);
  }

  // ---------- What stays ----------

  /** Every other byte outside strings stays. */
  lemma OthersStay(b: byte)
    requires b != 0 && !Blank(b) && b != '"' as int && b != '/' as int
    ensures Minify(Terminated([b]), 0) == Text([b])
  {
    var z := Terminated([b]);
    assert z == [b, 0];
    assert Minify(z, 1) == Text([]);
    assert [b] + [] == [b];
  }
}
